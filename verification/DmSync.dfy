/**
 Direct messages on the phone: relay deltas merged into the local thread, the
 per-conversation sync cursor, and the outbox.

 `DmStore` is the two tables and the operations on them. `State`, `Step` and `After`
 are runs of reconciliations, sends and failures over every conversation. The digest
 of a message is a parameter: nothing here depends on which one it is.
 */
module DmSync {
  import opened Outcomes

  datatype Status = Pending | Synced | Failed

  /** A message as the relay returns it. */
  datatype Message = Message(
    id: string,
    sender: string,
    recipient: string,
    content: string,
    ciphertext: Option<string>,
    timestamp: int)

  datatype Incoming = Incoming(
    id: string,
    sender: string,
    recipient: string,
    content: string,
    hash: string,
    timestamp: int)

  datatype Row = Row(
    conversationId: string,
    sender: string,
    recipient: string,
    content: string,
    hash: string,
    timestamp: int,
    status: Status,
    error: Option<string>,
    createdAt: int)

  type Messages = map<string, Row>
  type Cursors = map<string, int>
  type Digest = string -> string

  datatype SendError = UnknownRecipientKey | DuplicateLocalId
  datatype ReconcileResult = ReconcileResult(mergedCount: nat, newest: Option<int>)

  // ----- The statements ------------------------------------------------------

  /** The ciphertext is hashed when there is one, the content otherwise. */
  function HashOf(digest: Digest, m: Message): string {
    digest(if m.ciphertext.Some? && m.ciphertext.value != "" then m.ciphertext.value else m.content)
  }

  function ToIncoming(digest: Digest, m: Message): Incoming {
    Incoming(m.id, m.sender, m.recipient, m.content, HashOf(digest, m), m.timestamp)
  }

  /** The messages past the cursor, in the order of the response. */
  function Deltas(digest: Digest, all: seq<Message>, cursor: int): seq<Incoming> {
    if all == [] then []
    else if all[0].timestamp > cursor then [ToIncoming(digest, all[0])] + Deltas(digest, all[1..], cursor)
    else Deltas(digest, all[1..], cursor)
  }

  /** On a conflict the conversation, the two parties and `created_at` stay as they were. */
  function Upserted(rows: Messages, conversationId: string, m: Incoming, now: int): Messages {
    if m.id in rows then
      rows[m.id := rows[m.id].(content := m.content, hash := m.hash, timestamp := m.timestamp,
                               status := Synced, error := None)]
    else
      rows[m.id := Row(conversationId, m.sender, m.recipient, m.content, m.hash, m.timestamp, Synced, None, now)]
  }

  /** An outbox row of this conversation that the merged message stands for. */
  predicate IsTwin(conversationId: string, hash: string, row: Row) {
    row.conversationId == conversationId && row.status != Synced && row.hash == hash
  }

  function WithoutTwins(rows: Messages, conversationId: string, m: Incoming): Messages {
    map id | id in rows && !(IsTwin(conversationId, m.hash, rows[id]) && id != m.id) :: rows[id]
  }

  function MergedOne(rows: Messages, conversationId: string, m: Incoming, now: int): Messages {
    WithoutTwins(Upserted(rows, conversationId, m, now), conversationId, m)
  }

  function Merged(rows: Messages, conversationId: string, incoming: seq<Incoming>, now: int): Messages {
    if incoming == [] then rows
    else
      var last := |incoming| - 1;
      MergedOne(Merged(rows, conversationId, incoming[..last], now), conversationId, incoming[last], now)
  }

  function Newest(incoming: seq<Incoming>): (newest: Option<int>)
    ensures newest.None? <==> incoming == []
    ensures newest.Some? ==>
              && (forall i :: 0 <= i < |incoming| ==> incoming[i].timestamp <= newest.value)
              && (exists i :: 0 <= i < |incoming| && incoming[i].timestamp == newest.value)
  {
    if incoming == [] then None
    else
      var last := |incoming| - 1;
      var before := Newest(incoming[..last]);
      assert incoming[last].timestamp == incoming[last].timestamp;
      assert forall i :: 0 <= i < last ==> incoming[..last][i] == incoming[i];
      if before.None? || incoming[last].timestamp > before.value then Some(incoming[last].timestamp) else before
  }

  /** 0 for a conversation that was never synced. */
  function CursorOf(cursors: Cursors, conversationId: string): int {
    if conversationId in cursors then cursors[conversationId] else 0
  }

  function Advanced(cursors: Cursors, conversationId: string, cursor: int): Cursors {
    cursors[conversationId :=
      if conversationId in cursors && cursors[conversationId] > cursor then cursors[conversationId] else cursor]
  }

  function OutboxRow(conversationId: string, sender: string, recipient: string, content: string, hash: string,
                     now: int): Row {
    Row(conversationId, sender, recipient, content, hash, now, Pending, None, now)
  }

  function MarkedFailed(rows: Messages, id: string, error: string): Messages {
    if id in rows then rows[id := rows[id].(status := Failed, error := Some(error))] else rows
  }

  class DmStore {
    var messages: Messages
    var cursors: Cursors

    constructor ()
      ensures messages == map[] && cursors == map[]
    {
      messages := map[];
      cursors := map[];
    }

    method MergeDmDeltas(conversationId: string, incoming: seq<Incoming>, now: int) returns (r: ReconcileResult)
      modifies this`messages
      ensures messages == Merged(old(messages), conversationId, incoming, now)
      ensures r == ReconcileResult(|incoming|, Newest(incoming))
    {
      var newest := None;
      for i := 0 to |incoming|
        invariant messages == Merged(old(messages), conversationId, incoming[..i], now)
        invariant newest == Newest(incoming[..i])
      {
        var m := incoming[i];
        assert incoming[..i + 1][..i] == incoming[..i];
        messages := Upserted(messages, conversationId, m, now);
        messages := WithoutTwins(messages, conversationId, m);
        if newest.None? || m.timestamp > newest.value {
          newest := Some(m.timestamp);
        }
      }
      assert incoming[..|incoming|] == incoming;
      return ReconcileResult(|incoming|, newest);
    }

    method SetDmSyncCursor(conversationId: string, cursor: int)
      modifies this`cursors
      ensures cursors == Advanced(old(cursors), conversationId, cursor)
      ensures conversationId in cursors && cursors[conversationId] >= cursor
      ensures conversationId in old(cursors) ==> cursors[conversationId] >= old(cursors)[conversationId]
      ensures cursors[conversationId] != cursor ==>
                conversationId in old(cursors) && cursors[conversationId] == old(cursors)[conversationId]
      ensures cursors == old(cursors)[conversationId := cursors[conversationId]]
    {
      if conversationId in cursors {
        if cursor > cursors[conversationId] {
          cursors := cursors[conversationId := cursor];
        }
      } else {
        cursors := cursors[conversationId := cursor];
      }
      assert cursors == Advanced(old(cursors), conversationId, cursor);
    }

    /** `all` is what the relay answered. */
    method ReconcileDmThread(digest: Digest, conversationId: string, all: seq<Message>, now: int)
      returns (r: ReconcileResult)
      modifies this
      ensures State(messages, cursors) ==
              AfterReconcile(State(old(messages), old(cursors)), digest, conversationId, all, now)
      ensures r.mergedCount == |Deltas(digest, all, CursorOf(old(cursors), conversationId))|
      ensures r.newest == Newest(Deltas(digest, all, CursorOf(old(cursors), conversationId)))
    {
      var cursor := CursorOf(cursors, conversationId);
      var deltas := Deltas(digest, all, cursor);
      if |deltas| == 0 {
        return ReconcileResult(0, None);
      }
      r := MergeDmDeltas(conversationId, deltas, now);
      if r.newest.Some? {
        SetDmSyncCursor(conversationId, r.newest.value);
      }
    }

    /** A pending row, composed and stored `now`. */
    method AddOutboxDmMessage(localId: string, conversationId: string, sender: string, recipient: string,
                              content: string, hash: string, now: int)
      returns (r: Result<Row, SendError>)
      modifies this`messages
      ensures localId in old(messages) ==> r == Err(DuplicateLocalId) && messages == old(messages)
      ensures localId !in old(messages) ==>
                && r == Ok(OutboxRow(conversationId, sender, recipient, content, hash, now))
                && r.value.conversationId == conversationId && r.value.sender == sender
                && r.value.recipient == recipient && r.value.content == content && r.value.hash == hash
                && r.value.status == Pending && r.value.error == None
                && r.value.timestamp == now && r.value.createdAt == now
                && messages == old(messages)[localId := r.value]
    {
      if localId in messages {
        return Err(DuplicateLocalId);
      }
      var row := OutboxRow(conversationId, sender, recipient, content, hash, now);
      messages := messages[localId := row];
      return Ok(row);
    }

    /**
     Without a key of the recipient nothing is stored. Otherwise the message is stored as
     pending before it is sent, and a rejected send leaves it failed with the relay's reason.
     */
    method SendDmMessageWithOutbox(digest: Digest, localId: string, conversationId: string, sender: string,
                                   recipient: string, content: string, now: int, hasPeerKey: bool,
                                   sendError: Option<string>)
      returns (r: Result<Row, SendError>)
      modifies this`messages
      ensures !hasPeerKey ==> r == Err(UnknownRecipientKey) && messages == old(messages)
      ensures hasPeerKey && localId in old(messages) ==> r == Err(DuplicateLocalId) && messages == old(messages)
      ensures hasPeerKey && localId !in old(messages) ==>
                && r.Ok?
                && messages == old(messages)[localId := r.value]
                && r.value == OutboxRow(conversationId, sender, recipient, content, digest(content), now)
                              .(status := if sendError.Some? then Failed else Pending, error := sendError)
    {
      if !hasPeerKey {
        return Err(UnknownRecipientKey);
      }
      var added := AddOutboxDmMessage(localId, conversationId, sender, recipient, content, digest(content), now);
      if added.Err? || sendError.None? {
        return added;
      }
      messages := MarkedFailed(messages, localId, sendError.value);
      return Ok(added.value.(status := Failed, error := sendError));
    }
  }

  // ----- One merge, row by row -----------------------------------------------

  function IncomingIds(incoming: seq<Incoming>): set<string> {
    set i | 0 <= i < |incoming| :: incoming[i].id
  }

  function Hashes(incoming: seq<Incoming>): set<string> {
    set i | 0 <= i < |incoming| :: incoming[i].hash
  }

  predicate IsTwinOfSome(conversationId: string, incoming: seq<Incoming>, row: Row) {
    row.conversationId == conversationId && row.status != Synced && row.hash in Hashes(incoming)
  }

  lemma LastIncoming(incoming: seq<Incoming>)
    requires incoming != []
    ensures IncomingIds(incoming) == IncomingIds(incoming[..|incoming| - 1]) + {incoming[|incoming| - 1].id}
    ensures Hashes(incoming) == Hashes(incoming[..|incoming| - 1]) + {incoming[|incoming| - 1].hash}
  {
    var before := incoming[..|incoming| - 1];
    assert forall i :: 0 <= i < |before| ==> before[i] == incoming[i];
  }

  /** Which rows a merge leaves: the merged ids, and whatever is no outbox twin of one of them. */
  lemma {:induction false} MergedPointwise(rows: Messages, conversationId: string, incoming: seq<Incoming>, now: int,
                                           id: string)
    ensures var after := Merged(rows, conversationId, incoming, now);
            && (id in after <==>
                id in IncomingIds(incoming) || (id in rows && !IsTwinOfSome(conversationId, incoming, rows[id])))
            && (id in IncomingIds(incoming) ==> after[id].status == Synced && after[id].error == None)
            && (id in after && id !in IncomingIds(incoming) ==> after[id] == rows[id])
  {
    if incoming != [] {
      MergedPointwise(rows, conversationId, incoming[..|incoming| - 1], now, id);
      LastIncoming(incoming);
    }
  }

  /** `incoming[i]` is the last of the list with its id. */
  ghost predicate LastOfItsId(incoming: seq<Incoming>, i: nat) {
    i < |incoming| && forall j :: i < j < |incoming| ==> incoming[j].id != incoming[i].id
  }

  /** A merged message ends synced with its own values, the last of the list if an id comes twice. */
  lemma {:induction false} MergedRowExactly(rows: Messages, conversationId: string, incoming: seq<Incoming>, now: int,
                                            i: nat)
    requires LastOfItsId(incoming, i)
    ensures var m, after := incoming[i], Merged(rows, conversationId, incoming, now);
            && m.id in after
            && after[m.id].content == m.content && after[m.id].hash == m.hash
            && after[m.id].timestamp == m.timestamp && after[m.id].status == Synced && after[m.id].error == None
  {
    var last := |incoming| - 1;
    if i < last {
      var before := incoming[..last];
      assert forall j :: 0 <= j < last ==> before[j] == incoming[j];
      MergedRowExactly(rows, conversationId, before, now, i);
    }
  }

  /** A new message keeps its parties; one that was synced already keeps those it was stored with. */
  lemma {:induction false} MergedPartiesExactly(rows: Messages, conversationId: string, incoming: seq<Incoming>,
                                                now: int, id: string)
    requires id in IncomingIds(incoming)
    ensures var after := Merged(rows, conversationId, incoming, now);
            && id in after
            && (id in rows && rows[id].status == Synced ==>
                  && after[id].conversationId == rows[id].conversationId && after[id].createdAt == rows[id].createdAt
                  && after[id].sender == rows[id].sender && after[id].recipient == rows[id].recipient)
            && (id !in rows ==>
                  && after[id].conversationId == conversationId && after[id].createdAt == now
                  && exists i :: 0 <= i < |incoming| && incoming[i].id == id
                                 && after[id].sender == incoming[i].sender
                                 && after[id].recipient == incoming[i].recipient)
  {
    var last := |incoming| - 1;
    var before := incoming[..last];
    LastIncoming(incoming);
    MergedPointwise(rows, conversationId, before, now, id);
    if id in IncomingIds(before) {
      MergedPartiesExactly(rows, conversationId, before, now, id);
      assert forall j :: 0 <= j < last ==> before[j] == incoming[j];
    } else {
      assert incoming[last].id == id;
    }
  }

  /** Right after a merge no outbox row of the conversation carries a merged hash. */
  lemma MergeLeavesNoTwin(rows: Messages, conversationId: string, incoming: seq<Incoming>, now: int, id: string)
    requires id in Merged(rows, conversationId, incoming, now)
    ensures !IsTwinOfSome(conversationId, incoming, Merged(rows, conversationId, incoming, now)[id])
  {
    MergedPointwise(rows, conversationId, incoming, now, id);
  }

  // ----- Runs ----------------------------------------------------------------

  datatype State = State(messages: Messages, cursors: Cursors)

  function AfterReconcile(s: State, digest: Digest, conversationId: string, all: seq<Message>, now: int): State {
    var deltas := Deltas(digest, all, CursorOf(s.cursors, conversationId));
    var newest := Newest(deltas);
    if newest.None? then s
    else State(Merged(s.messages, conversationId, deltas, now), Advanced(s.cursors, conversationId, newest.value))
  }

  datatype Step =
    | Reconcile(conversationId: string, all: seq<Message>, now: int)
    | AddOutbox(localId: string, conversationId: string, sender: string, recipient: string, content: string, now: int)
    | Fail(localId: string, error: string)

  /** The prefix of the ids that outbox rows get. */
  predicate IsLocal(id: string) {
    "dm_local_" <= id
  }

  /** What the relay holds: a message never changes and belongs to one conversation. */
  datatype Sent = Sent(conversationId: string, message: Message)
  type Relay = map<string, Sent>

  ghost predicate Enabled(relay: Relay, s: State, step: Step) {
    match step
    case Reconcile(conversationId, all, _) =>
      forall i :: 0 <= i < |all| ==>
        !IsLocal(all[i].id) && all[i].id in relay && relay[all[i].id] == Sent(conversationId, all[i])
    case AddOutbox(localId, _, _, _, _, _) => IsLocal(localId) && localId !in s.messages
    case Fail(localId, _) => IsLocal(localId)
  }

  function After(digest: Digest, s: State, step: Step): State {
    match step
    case Reconcile(conversationId, all, now) => AfterReconcile(s, digest, conversationId, all, now)
    case AddOutbox(localId, conversationId, sender, recipient, content, now) =>
      s.(messages := s.messages[localId :=
        OutboxRow(conversationId, sender, recipient, content, digest(content), now)])
    case Fail(localId, error) => s.(messages := MarkedFailed(s.messages, localId, error))
  }

  const INITIAL := State(map[], map[])

  ghost predicate IsRun(digest: Digest, relay: Relay, states: seq<State>, steps: seq<Step>) {
    && |states| == |steps| + 1
    && states[0] == INITIAL
    && (forall k :: 0 <= k < |steps| ==>
          Enabled(relay, states[k], steps[k]) && states[k + 1] == After(digest, states[k], steps[k]))
  }

  // ----- One call ------------------------------------------------------------

  predicate IsSynced(rows: Messages, id: string) {
    id in rows && rows[id].status == Synced
  }

  predicate PastCursor(all: seq<Message>, cursor: int, id: string) {
    exists i :: 0 <= i < |all| && all[i].id == id && all[i].timestamp > cursor
  }

  lemma {:induction false} DeltaIds(digest: Digest, all: seq<Message>, cursor: int, id: string)
    ensures id in IncomingIds(Deltas(digest, all, cursor)) <==> PastCursor(all, cursor, id)
    ensures forall i :: 0 <= i < |Deltas(digest, all, cursor)| ==> Deltas(digest, all, cursor)[i].timestamp > cursor
  {
    if all != [] {
      DeltaIds(digest, all[1..], cursor, id);
      var rest, deltas := Deltas(digest, all[1..], cursor), Deltas(digest, all, cursor);
      if PastCursor(all, cursor, id) && !(all[0].timestamp > cursor && all[0].id == id) {
        var i :| 0 <= i < |all| && all[i].id == id && all[i].timestamp > cursor;
        assert all[1..][i - 1] == all[i];
      }
      if PastCursor(all[1..], cursor, id) {
        var i :| 0 <= i < |all| - 1 && all[1..][i].id == id && all[1..][i].timestamp > cursor;
        assert all[i + 1] == all[1..][i];
      }
      if all[0].timestamp > cursor {
        assert deltas == [ToIncoming(digest, all[0])] + rest;
        assert deltas[0].id in IncomingIds(deltas);
        assert forall i :: 0 <= i < |rest| ==> deltas[i + 1] == rest[i];
        assert IncomingIds(deltas) == {all[0].id} + IncomingIds(rest);
      }
    }
  }

  /** The positions of the messages past the cursor, in order. */
  ghost predicate ArePast(all: seq<Message>, cursor: int, at: seq<nat>) {
    && (forall i, j :: 0 <= i < j < |at| ==> at[i] < at[j])
    && (forall i :: 0 <= i < |at| ==> at[i] < |all| && all[at[i]].timestamp > cursor)
    && (forall k :: 0 <= k < |all| && all[k].timestamp > cursor ==> k in at)
  }

  /** The message as it is merged: hashed by its ciphertext, or by its content where there is none. */
  ghost predicate IsDelta(digest: Digest, m: Message, delta: Incoming) {
    && delta.id == m.id && delta.sender == m.sender && delta.recipient == m.recipient
    && delta.content == m.content && delta.timestamp == m.timestamp
    && delta.hash == digest(if m.ciphertext == None || m.ciphertext == Some("") then m.content else m.ciphertext.value)
  }

  function Shifted(at: seq<nat>): (r: seq<nat>)
    ensures |r| == |at| && forall i :: 0 <= i < |at| ==> r[i] == at[i] + 1
  {
    seq(|at|, i requires 0 <= i < |at| => at[i] + 1)
  }

  lemma ShiftedArePast(all: seq<Message>, cursor: int, at: seq<nat>)
    requires all != [] && ArePast(all[1..], cursor, at)
    ensures forall i :: 0 <= i < |at| ==> 0 < Shifted(at)[i] < |all| && all[Shifted(at)[i]].timestamp > cursor
    ensures forall k :: 0 < k < |all| && all[k].timestamp > cursor ==> k in Shifted(at)
  {
    forall i | 0 <= i < |at|
      ensures 0 < Shifted(at)[i] < |all| && all[Shifted(at)[i]].timestamp > cursor
    {
      assert all[1..][at[i]] == all[at[i] + 1];
    }
    forall k | 0 < k < |all| && all[k].timestamp > cursor
      ensures k in Shifted(at)
    {
      assert all[1..][k - 1] == all[k];
      var i :| 0 <= i < |at| && at[i] == k - 1;
      assert Shifted(at)[i] == k;
    }
  }

  lemma ArePastOneMore(all: seq<Message>, cursor: int, at: seq<nat>)
    requires all != [] && ArePast(all[1..], cursor, at)
    ensures ArePast(all, cursor, (if all[0].timestamp > cursor then [0] else []) + Shifted(at))
  {
    hide ArePast;
    ShiftedArePast(all, cursor, at);
    ShiftedAscends(all, cursor, at);
    if all[0].timestamp > cursor {
      PrependZero(all, cursor, Shifted(at));
    } else {
      AllPast(all, cursor, Shifted(at));
      assert [] + Shifted(at) == Shifted(at);
    }
  }

  lemma ShiftedAscends(all: seq<Message>, cursor: int, at: seq<nat>)
    requires all != [] && ArePast(all[1..], cursor, at)
    ensures forall i, j :: 0 <= i < j < |at| ==> Shifted(at)[i] < Shifted(at)[j]
  {
  }

  lemma AllPast(all: seq<Message>, cursor: int, rest: seq<nat>)
    requires all != [] && all[0].timestamp <= cursor
    requires forall i, j :: 0 <= i < j < |rest| ==> rest[i] < rest[j]
    requires forall i :: 0 <= i < |rest| ==> 0 < rest[i] < |all| && all[rest[i]].timestamp > cursor
    requires forall k :: 0 < k < |all| && all[k].timestamp > cursor ==> k in rest
    ensures ArePast(all, cursor, rest)
  {
  }

  lemma PrependZero(all: seq<Message>, cursor: int, rest: seq<nat>)
    requires all != [] && all[0].timestamp > cursor
    requires forall i, j :: 0 <= i < j < |rest| ==> rest[i] < rest[j]
    requires forall i :: 0 <= i < |rest| ==> 0 < rest[i] < |all| && all[rest[i]].timestamp > cursor
    requires forall k :: 0 < k < |all| && all[k].timestamp > cursor ==> k in rest
    ensures ArePast(all, cursor, [0] + rest)
  {
    var more: seq<nat> := [0] + rest;
    assert forall i :: 0 < i < |more| ==> more[i] == rest[i - 1];
    assert more[0] == 0;
  }

  /** What is merged: exactly the messages past the cursor, in the order of the response. */
  lemma {:induction false} DeltasExactly(digest: Digest, all: seq<Message>, cursor: int) returns (at: seq<nat>)
    ensures ArePast(all, cursor, at) && |at| == |Deltas(digest, all, cursor)|
    ensures forall i :: 0 <= i < |at| ==>
              at[i] < |all| && IsDelta(digest, all[at[i]], Deltas(digest, all, cursor)[i])
  {
    hide ArePast, IsDelta;
    at := [];
    if all == [] {
      NoneArePast(cursor);
    } else {
      var rest := DeltasExactly(digest, all[1..], cursor);
      ArePastOneMore(all, cursor, rest);
      ToIncomingIsDelta(digest, all[0]);
      at := (if all[0].timestamp > cursor then [0] else []) + Shifted(rest);
      var first := |at| - |rest|;
      forall i | 0 <= i < |at|
        ensures at[i] < |all| && IsDelta(digest, all[at[i]], Deltas(digest, all, cursor)[i])
      {
        if i >= first {
          assert at[i] == rest[i - first] + 1 && all[1..][rest[i - first]] == all[at[i]];
          assert Deltas(digest, all, cursor)[i] == Deltas(digest, all[1..], cursor)[i - first];
        }
      }
    }
  }

  lemma NoneArePast(cursor: int)
    ensures ArePast([], cursor, [])
  {
  }

  lemma ToIncomingIsDelta(digest: Digest, m: Message)
    ensures IsDelta(digest, m, ToIncoming(digest, m))
  {
  }

  /** What a call makes of one row: a message past the cursor ends synced, and no synced row is lost. */
  lemma ReconciledRow(s: State, digest: Digest, conversationId: string, all: seq<Message>, now: int, id: string)
    ensures IsSynced(AfterReconcile(s, digest, conversationId, all, now).messages, id) <==>
            IsSynced(s.messages, id) || PastCursor(all, CursorOf(s.cursors, conversationId), id)
  {
    var cursor := CursorOf(s.cursors, conversationId);
    var deltas := Deltas(digest, all, cursor);
    DeltaIds(digest, all, cursor, id);
    MergedPointwise(s.messages, conversationId, deltas, now, id);
  }

  /**
   One call leaves every returned message synced exactly when each that was not yet synced is
   timestamped after the stored cursor.
   */
  lemma CallSyncsEverythingExactly(s: State, digest: Digest, conversationId: string, all: seq<Message>, now: int)
    ensures (forall i :: 0 <= i < |all| ==>
               IsSynced(AfterReconcile(s, digest, conversationId, all, now).messages, all[i].id)) <==>
            (forall i :: 0 <= i < |all| ==>
               || IsSynced(s.messages, all[i].id)
               || PastCursor(all, CursorOf(s.cursors, conversationId), all[i].id))
  {
    forall i | 0 <= i < |all|
      ensures IsSynced(AfterReconcile(s, digest, conversationId, all, now).messages, all[i].id) <==>
              || IsSynced(s.messages, all[i].id)
              || PastCursor(all, CursorOf(s.cursors, conversationId), all[i].id)
    {
      ReconciledRow(s, digest, conversationId, all, now, all[i].id);
    }
  }

  // ----- The cursor ----------------------------------------------------------

  lemma StepNeverMovesCursorBack(digest: Digest, s: State, step: Step, conversationId: string)
    ensures CursorOf(After(digest, s, step).cursors, conversationId) >= CursorOf(s.cursors, conversationId)
  {
    if step.Reconcile? && step.conversationId == conversationId {
      var cursor := CursorOf(s.cursors, conversationId);
      var deltas := Deltas(digest, step.all, cursor);
      DeltaIds(digest, step.all, cursor, "");
      if deltas != [] {
        var i :| 0 <= i < |deltas| && deltas[i].timestamp == Newest(deltas).value;
      }
    }
  }

  /** A call moves the cursor of its conversation to the newest message past it, if any, and no other cursor. */
  lemma CursorExactly(s: State, digest: Digest, conversationId: string, all: seq<Message>, now: int, other: string)
    ensures var cursor := CursorOf(s.cursors, conversationId);
            var after := AfterReconcile(s, digest, conversationId, all, now).cursors;
            && (other != conversationId ==> CursorOf(after, other) == CursorOf(s.cursors, other))
            && ((forall i :: 0 <= i < |all| ==> all[i].timestamp <= cursor) ==>
                  AfterReconcile(s, digest, conversationId, all, now) == s)
            && ((exists i :: 0 <= i < |all| && all[i].timestamp > cursor) ==>
                  && (forall i :: 0 <= i < |all| ==> all[i].timestamp <= CursorOf(after, conversationId))
                  && (exists i :: 0 <= i < |all| && all[i].timestamp == CursorOf(after, conversationId)))
  {
    var cursor := CursorOf(s.cursors, conversationId);
    var deltas := Deltas(digest, all, cursor);
    var at := DeltasExactly(digest, all, cursor);
    if exists i :: 0 <= i < |all| && all[i].timestamp > cursor {
      var i :| 0 <= i < |all| && all[i].timestamp > cursor;
      assert i in at;
      var k :| 0 <= k < |deltas| && deltas[k].timestamp == Newest(deltas).value;
      assert all[at[k]].timestamp > cursor && deltas[k].timestamp == all[at[k]].timestamp;
      forall j | 0 <= j < |all|
        ensures all[j].timestamp <= Newest(deltas).value
      {
        if all[j].timestamp > cursor {
          assert j in at;
          var n :| 0 <= n < |at| && at[n] == j;
          assert deltas[n].timestamp == all[j].timestamp;
        }
      }
    }
  }

  /** Over any run no cursor ever decreases. */
  lemma {:induction false} CursorNeverDecreases(digest: Digest, relay: Relay, states: seq<State>, steps: seq<Step>,
                                                conversationId: string, k: nat, n: nat)
    requires IsRun(digest, relay, states, steps) && k <= n < |states|
    ensures CursorOf(states[k].cursors, conversationId) <= CursorOf(states[n].cursors, conversationId)
    decreases n
  {
    hide After, Enabled, CursorOf;
    if k < n {
      CursorNeverDecreases(digest, relay, states, steps, conversationId, k, n - 1);
      StepNeverMovesCursorBack(digest, states[n - 1], steps[n - 1], conversationId);
    }
  }

  // ----- The thread is the relay's -------------------------------------------

  /** The local row of a relay message, except for when it was stored. */
  predicate Mirrors(digest: Digest, row: Row, sent: Sent) {
    var m := sent.message;
    row == Row(sent.conversationId, m.sender, m.recipient, m.content, HashOf(digest, m), m.timestamp, Synced, None,
               row.createdAt)
  }

  /** Every row is a relay message as it is, or an outbox row that is not synced. */
  ghost predicate RowsAreTrue(digest: Digest, relay: Relay, rows: Messages) {
    forall id :: id in rows ==>
      if IsLocal(id) then rows[id].status != Synced
      else id in relay && Mirrors(digest, rows[id], relay[id])
  }

  ghost predicate FromRelay(digest: Digest, relay: Relay, conversationId: string, incoming: seq<Incoming>) {
    forall i :: 0 <= i < |incoming| ==>
      && !IsLocal(incoming[i].id) && incoming[i].id in relay
      && relay[incoming[i].id].conversationId == conversationId
      && incoming[i] == ToIncoming(digest, relay[incoming[i].id].message)
  }

  lemma MergingOneKeepsRowsTrue(digest: Digest, relay: Relay, rows: Messages, conversationId: string, m: Incoming,
                                now: int)
    requires RowsAreTrue(digest, relay, rows) && FromRelay(digest, relay, conversationId, [m])
    ensures RowsAreTrue(digest, relay, MergedOne(rows, conversationId, m, now))
  {
    assert [m][0] == m;
    var after := MergedOne(rows, conversationId, m, now);
    forall id | id in after
      ensures if IsLocal(id) then after[id].status != Synced
              else id in relay && Mirrors(digest, after[id], relay[id])
    {
      if id != m.id {
        assert id in rows && after[id] == rows[id];
      }
    }
  }

  lemma {:induction false} MergingKeepsRowsTrue(digest: Digest, relay: Relay, rows: Messages, conversationId: string,
                                                incoming: seq<Incoming>, now: int)
    requires RowsAreTrue(digest, relay, rows) && FromRelay(digest, relay, conversationId, incoming)
    ensures RowsAreTrue(digest, relay, Merged(rows, conversationId, incoming, now))
  {
    if incoming != [] {
      var last := |incoming| - 1;
      assert FromRelay(digest, relay, conversationId, incoming[..last]);
      MergingKeepsRowsTrue(digest, relay, rows, conversationId, incoming[..last], now);
      MergingOneKeepsRowsTrue(digest, relay, Merged(rows, conversationId, incoming[..last], now), conversationId,
                              incoming[last], now);
    }
  }

  lemma {:induction false} DeltasAreFromRelay(digest: Digest, relay: Relay, conversationId: string, all: seq<Message>,
                                              cursor: int)
    requires forall i :: 0 <= i < |all| ==>
               !IsLocal(all[i].id) && all[i].id in relay && relay[all[i].id] == Sent(conversationId, all[i])
    ensures FromRelay(digest, relay, conversationId, Deltas(digest, all, cursor))
  {
    if all != [] {
      DeltasAreFromRelay(digest, relay, conversationId, all[1..], cursor);
    }
  }

  lemma StepKeepsRowsTrue(digest: Digest, relay: Relay, s: State, step: Step)
    requires RowsAreTrue(digest, relay, s.messages) && Enabled(relay, s, step)
    ensures RowsAreTrue(digest, relay, After(digest, s, step).messages)
  {
    if step.Reconcile? {
      var deltas := Deltas(digest, step.all, CursorOf(s.cursors, step.conversationId));
      DeltasAreFromRelay(digest, relay, step.conversationId, step.all, CursorOf(s.cursors, step.conversationId));
      MergingKeepsRowsTrue(digest, relay, s.messages, step.conversationId, deltas, step.now);
    }
  }

  function ReturnedIds(all: seq<Message>): set<string> {
    set i | 0 <= i < |all| :: all[i].id
  }

  /** The messages the first `n` steps got from the relay. */
  function Returned(steps: seq<Step>, n: nat): set<string>
    requires n <= |steps|
  {
    if n == 0 then {}
    else Returned(steps, n - 1) + if steps[n - 1].Reconcile? then ReturnedIds(steps[n - 1].all) else {}
  }

  /** Every message the relay returns for the first time is timestamped after the stored cursor. */
  ghost predicate NewOnesArePastCursor(s: State, step: Step, returned: set<string>) {
    step.Reconcile? ==>
      forall i :: 0 <= i < |step.all| ==>
        step.all[i].id in returned || step.all[i].timestamp > CursorOf(s.cursors, step.conversationId)
  }

  /** The synced rows are exactly these messages. */
  ghost predicate Holds(rows: Messages, returned: set<string>) {
    forall id :: IsSynced(rows, id) <==> id in returned
  }

  lemma StepHoldsReturned(digest: Digest, relay: Relay, s: State, step: Step, returned: set<string>)
    requires RowsAreTrue(digest, relay, s.messages) && Enabled(relay, s, step)
    requires Holds(s.messages, returned)
    requires NewOnesArePastCursor(s, step, returned)
    ensures Holds(After(digest, s, step).messages,
                  returned + if step.Reconcile? then ReturnedIds(step.all) else {})
  {
    var after := After(digest, s, step);
    forall id
      ensures IsSynced(after.messages, id) <==>
              id in returned || (step.Reconcile? && id in ReturnedIds(step.all))
    {
      if step.Reconcile? {
        ReconciledRow(s, digest, step.conversationId, step.all, step.now, id);
      } else if step.Fail? && id == step.localId {
        assert !IsSynced(s.messages, id);
      }
    }
  }

  /**
   Over any run, in every conversation: if no message arrives at the relay behind the cursor,
   the synced rows are exactly the messages returned so far, each with the relay's values.
   */
  lemma {:induction false} SyncedRowsAreTheRelaysMessages(digest: Digest, relay: Relay, states: seq<State>,
                                                          steps: seq<Step>, n: nat)
    requires IsRun(digest, relay, states, steps) && n < |states|
    requires forall k :: 0 <= k < n ==> NewOnesArePastCursor(states[k], steps[k], Returned(steps, k))
    ensures RowsAreTrue(digest, relay, states[n].messages)
    ensures Holds(states[n].messages, Returned(steps, n))
  {
    if n > 0 {
      SyncedRowsAreTheRelaysMessages(digest, relay, states, steps, n - 1);
      StepKeepsRowsTrue(digest, relay, states[n - 1], steps[n - 1]);
      StepHoldsReturned(digest, relay, states[n - 1], steps[n - 1], Returned(steps, n - 1));
    }
  }

  /** A message that arrives at the relay at or behind the cursor is never synced, in any run. */
  lemma {:induction false} LateMessageIsNeverSynced(digest: Digest, relay: Relay, states: seq<State>,
                                                    steps: seq<Step>, k: nat, n: nat, id: string)
    requires IsRun(digest, relay, states, steps) && k <= n < |states|
    requires id in relay && !IsSynced(states[k].messages, id)
    requires relay[id].message.timestamp <= CursorOf(states[k].cursors, relay[id].conversationId)
    ensures !IsSynced(states[n].messages, id)
    decreases n
  {
    if k < n {
      LateMessageIsNeverSynced(digest, relay, states, steps, k, n - 1, id);
      CursorNeverDecreases(digest, relay, states, steps, relay[id].conversationId, k, n - 1);
      LateStep(digest, relay, states[n - 1], steps[n - 1], id);
    }
  }

  lemma LateStep(digest: Digest, relay: Relay, s: State, step: Step, id: string)
    requires Enabled(relay, s, step)
    requires id in relay && !IsSynced(s.messages, id)
    requires relay[id].message.timestamp <= CursorOf(s.cursors, relay[id].conversationId)
    ensures !IsSynced(After(digest, s, step).messages, id)
  {
    if step.Reconcile? {
      ReconciledRow(s, digest, step.conversationId, step.all, step.now, id);
    }
  }
}
