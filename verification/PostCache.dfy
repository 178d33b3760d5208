/**
 The offline post cache of the mobile app: chain-wins reconciliation of a remote list,
 the confirmation of an optimistic post, and eviction.

 The SQL table is a map from the primary key. One SQL statement is one assignment.
 */
module PostCache {
  import opened Outcomes

  datatype Status = Pending | Synced | Failed

  datatype Post = Post(
    id: string,
    author: string,
    username: string,
    content: string,
    tipTotal: int,
    timestamp: int,
    likeCount: int,
    hasLiked: bool)

  datatype Row = Row(
    author: string,
    username: string,
    content: string,
    tipTotal: int,
    timestamp: int,
    likeCount: int,
    hasLiked: bool,
    status: Status,
    createdAt: int)

  type Table = map<string, Row>

  /** A primary key that is already taken fails the statement. */
  datatype SqlError = ConstraintViolation

  // ----- The statements of a reconciliation ----------------------------------

  function RowOf(post: Post, createdAt: int): Row {
    Row(post.author, if post.username == "" then "stellar_user" else post.username, post.content, post.tipTotal,
        post.timestamp, post.likeCount, post.hasLiked, Synced, createdAt)
  }

  /** On a conflict every column but `created_at` is replaced. */
  function Upserted(table: Table, post: Post, now: int): Table {
    table[post.id := RowOf(post, if post.id in table then table[post.id].createdAt else now)]
  }

  function AllUpserted(table: Table, posts: seq<Post>, now: int): Table
    decreases |posts|
  {
    if posts == [] then table else AllUpserted(Upserted(table, posts[0], now), posts[1..], now)
  }

  /** An optimistic row of another id with the author and content of a remote post. */
  predicate Superseded(id: string, row: Row, posts: seq<Post>) {
    && row.status != Synced
    && exists i :: 0 <= i < |posts| &&
                   row.author == posts[i].author && row.content == posts[i].content && id != posts[i].id
  }

  function Ids(posts: seq<Post>): set<string> {
    set i | 0 <= i < |posts| :: posts[i].id
  }

  function WithoutSuperseded(table: Table, posts: seq<Post>): Table {
    map id | id in table && !Superseded(id, table[id], posts) :: table[id]
  }

  function WithoutStale(table: Table, posts: seq<Post>): Table {
    map id | id in table && !(table[id].status == Synced && id !in Ids(posts)) :: table[id]
  }

  function Reconciled(table: Table, posts: seq<Post>, now: int, evictStale: bool): Table {
    if posts == [] then table
    else
      var merged := WithoutSuperseded(AllUpserted(table, posts, now), posts);
      if evictStale then WithoutStale(merged, posts) else merged
  }

  // ----- Confirming an optimistic post ---------------------------------------

  /** The transaction, where `taken` is what the earlier read found under the real id. */
  function ConfirmApplied(table: Table, localId: string, realId: string, taken: bool): Result<Table, SqlError> {
    if taken || localId !in table then Ok(table - {localId})
    else if realId in table && realId != localId then Err(ConstraintViolation)
    else Ok((table - {localId})[realId := table[localId].(status := Synced)])
  }

  function Confirmed(table: Table, localId: string, realId: string): (confirmed: Table)
  {
    ConfirmApplied(table, localId, realId, realId in table).value
  }

  class PostCache {
    var rows: Table

    constructor ()
      ensures rows == map[]
    {
      rows := map[];
    }

    /**
     Every remote id ends synced, nothing optimistic is left that a remote post supersedes,
     every other optimistic row is unchanged, and a full refresh leaves no other synced row.
     An empty list changes nothing.
     */
    method ReconcilePosts(posts: seq<Post>, now: int, evictStale: bool)
      modifies this
      ensures rows == Reconciled(old(rows), posts, now, evictStale)
      ensures posts == [] ==> rows == old(rows)
      ensures forall i :: 0 <= i < |posts| ==> posts[i].id in rows && rows[posts[i].id].status == Synced
      ensures posts != [] ==>
                && (forall id :: id in rows ==> !Superseded(id, rows[id], posts))
                && (forall id :: id in old(rows) && id !in Ids(posts) && old(rows)[id].status != Synced &&
                                 !Superseded(id, old(rows)[id], posts) ==>
                                 id in rows && rows[id] == old(rows)[id])
                && (evictStale ==> forall id :: id in rows && rows[id].status == Synced ==> id in Ids(posts))
    {
      ghost var before := rows;
      if posts == [] {
        return;
      }
      rows := AllUpserted(rows, posts, now);
      rows := WithoutSuperseded(rows, posts);
      if evictStale {
        rows := WithoutStale(rows, posts);
      }
      forall id
        ensures id in rows <==> Survives(before, posts, evictStale, id)
        ensures id in rows ==> rows[id] == if id in Ids(posts) then RemoteRow(before, posts, now, id) else before[id]
      {
        ReconciledPointwise(before, posts, now, evictStale, id);
      }
    }

    /** `meanwhile` is what other callers do between the read and the transaction. */
    method ConfirmPendingPost(localId: string, realId: string, meanwhile: Table -> Table) returns (r: Result<(),
                              SqlError>)
      modifies this
      ensures var result := ConfirmApplied(meanwhile(old(rows)), localId, realId, realId in old(rows));
              && r.Ok? == result.Ok?
              && rows == if result.Ok? then result.value else meanwhile(old(rows))
    {
      var taken := realId in rows;
      rows := meanwhile(rows);
      if taken {
        rows := rows - {localId};
      } else if localId in rows {
        if realId in rows && realId != localId {
          return Err(ConstraintViolation);
        }
        rows := (rows - {localId})[realId := rows[localId].(status := Synced)];
      }
      return Ok(());
    }

    method AddOptimisticPost(localId: string, author: string, content: string, username: string, now: int)
      returns (r: Result<string, SqlError>)
      modifies this
      ensures localId in old(rows) ==> r == Err(ConstraintViolation) && rows == old(rows)
      ensures localId !in old(rows) ==>
                r == Ok(localId) &&
                rows == old(rows)[localId := Row(author, username, content, 0, now, 0, false, Pending, now)]
    {
      if localId in rows {
        return Err(ConstraintViolation);
      }
      rows := rows[localId := Row(author, username, content, 0, now, 0, false, Pending, now)];
      return Ok(localId);
    }

    method MarkPendingPostFailed(localId: string)
      modifies this
      ensures rows == MarkedFailed(old(rows), localId)
      ensures rows == if localId in old(rows) then old(rows)[localId := old(rows)[localId].(status := Failed)]
                      else old(rows)
    {
      if localId in rows {
        rows := rows[localId := rows[localId].(status := Failed)];
      }
    }

    /**
     `pending` is what the database lists as pending or failed; every turn says what the wallet and the
     indexer answer for a post, and what others do to the table while it waits for them.
     */
    method SyncPendingPosts(pending: seq<string>, turns: seq<Turn>)
      requires ListsOptimistic(pending, rows) && |pending| == |turns|
      modifies this
      ensures rows == Settled(old(rows), pending, turns, |pending|)
    {
      for i := 0 to |pending|
        invariant rows == Settled(old(rows), pending, turns, i)
      {
        rows := turns[i].submitting(rows);
        match turns[i].outcome
        case None =>
          MarkPendingPostFailed(pending[i]);
        case Some(realId) =>
          var confirmed := ConfirmPendingPost(pending[i], realId, turns[i].confirming);
          if confirmed.Err? {
            MarkPendingPostFailed(pending[i]);
          }
      }
    }

    /**
     `EvictedExactly` says what stays. `newestFirst` is the order in which the database lists the synced
     rows that the age check left; rows of equal timestamp may come in any order.
     */
    method EvictStaleCache(now: int, maxAge: int, maxRows: int, newestFirst: seq<string>)
      requires ListsNewestFirst(newestFirst, AgeEvicted(rows, now - maxAge))
      modifies this
      ensures rows == Evicted(old(rows), now - maxAge, maxRows, newestFirst)
    {
      var cutoff := now - maxAge;
      if !EveryRowIsStale(rows, cutoff) {
        rows := map id | id in rows && !(rows[id].status == Synced && rows[id].timestamp < cutoff) :: rows[id];
      }
      var kept := FirstRows(newestFirst, maxRows);
      rows := map id | id in rows && !(rows[id].status == Synced && id !in kept) :: rows[id];
    }
  }

  // ----- What reconciliation does to one row ---------------------------------

  /** The last post of the list with this id. */
  function LastWith(posts: seq<Post>, id: string): (post: Post)
    requires id in Ids(posts)
    ensures post in posts && post.id == id
  {
    if id in Ids(posts[1..]) then LastWith(posts[1..], id) else posts[0]
  }

  function RemoteRow(table: Table, posts: seq<Post>, now: int, id: string): Row
    requires id in Ids(posts)
  {
    RowOf(LastWith(posts, id), if id in table then table[id].createdAt else now)
  }

  predicate Survives(table: Table, posts: seq<Post>, evictStale: bool, id: string) {
    || id in Ids(posts)
    || (id in table && if table[id].status == Synced then !evictStale else !Superseded(id, table[id], posts))
  }

  lemma {:induction false} AllUpsertedPointwise(table: Table, posts: seq<Post>, now: int, id: string)
    ensures id in AllUpserted(table, posts, now) <==> id in table || id in Ids(posts)
    ensures id in Ids(posts) ==> AllUpserted(table, posts, now)[id] == RemoteRow(table, posts, now, id)
    ensures id in table && id !in Ids(posts) ==> AllUpserted(table, posts, now)[id] == table[id]
    decreases |posts|
  {
    if posts != [] {
      AllUpsertedPointwise(Upserted(table, posts[0], now), posts[1..], now, id);
      IdsOfTail(posts);
    }
  }

  lemma IdsOfTail(posts: seq<Post>)
    requires posts != []
    ensures Ids(posts) == {posts[0].id} + Ids(posts[1..])
  {
    forall i | 0 <= i < |posts|
      ensures posts[i].id in {posts[0].id} + Ids(posts[1..])
    {
      if i > 0 {
        assert posts[1..][i - 1] == posts[i];
      }
    }
    forall i | 0 <= i < |posts| - 1
      ensures posts[1..][i].id in Ids(posts)
    {
      assert posts[1..][i] == posts[i + 1];
    }
  }

  /** The complete effect on every row: which ids are left, and with what. */
  lemma ReconciledPointwise(table: Table, posts: seq<Post>, now: int, evictStale: bool, id: string)
    requires posts != []
    ensures id in Reconciled(table, posts, now, evictStale) <==> Survives(table, posts, evictStale, id)
    ensures id in Reconciled(table, posts, now, evictStale) ==>
              Reconciled(table, posts, now, evictStale)[id] ==
              if id in Ids(posts) then RemoteRow(table, posts, now, id) else table[id]
  {
    AllUpsertedPointwise(table, posts, now, id);
  }

  /** `posts[i]` is the last of the list with its id. */
  ghost predicate LastOfItsId(posts: seq<Post>, i: nat) {
    i < |posts| && forall j :: i < j < |posts| ==> posts[j].id != posts[i].id
  }

  lemma {:induction false} LastWithIs(posts: seq<Post>, i: nat)
    requires LastOfItsId(posts, i)
    ensures posts[i].id in Ids(posts) && LastWith(posts, posts[i].id) == posts[i]
  {
    IdsOfTail(posts);
    if i == 0 {
      forall j | 0 <= j < |posts| - 1
        ensures posts[1..][j].id != posts[0].id
      {
        assert posts[1..][j] == posts[j + 1];
      }
    } else {
      forall j | i - 1 < j < |posts| - 1
        ensures posts[1..][j].id != posts[1..][i - 1].id
      {
        assert posts[1..][j] == posts[j + 1];
      }
      LastWithIs(posts[1..], i - 1);
    }
  }

  /**
   Column by column: a remote post ends synced with its own values, the last of the list if an id comes
   twice; only `created_at` of a row that was there stays.
   */
  lemma RemoteRowExactly(table: Table, posts: seq<Post>, now: int, evictStale: bool, i: nat)
    requires LastOfItsId(posts, i)
    ensures var post, after := posts[i], Reconciled(table, posts, now, evictStale);
            && post.id in after
            && var row := after[post.id];
               && row.author == post.author && row.content == post.content
               && row.username == (if post.username == "" then "stellar_user" else post.username)
               && row.tipTotal == post.tipTotal && row.likeCount == post.likeCount && row.hasLiked == post.hasLiked
               && row.timestamp == post.timestamp && row.status == Synced
               && row.createdAt == if post.id in table then table[post.id].createdAt else now
  {
    LastWithIs(posts, i);
    ReconciledPointwise(table, posts, now, evictStale, posts[i].id);
  }

  /** Some remote post of another id has the author and the content of the row. */
  ghost predicate SaidElsewhere(posts: seq<Post>, id: string, row: Row) {
    exists i :: 0 <= i < |posts| &&
                posts[i].id != id && posts[i].author == row.author && posts[i].content == row.content
  }

  /**
   The rows of other ids, none of them changed: a synced one stays unless stale rows are evicted, a
   pending or failed one stays unless a remote post says the same.
   */
  lemma OtherRowExactly(table: Table, posts: seq<Post>, now: int, evictStale: bool, id: string)
    requires posts != [] && forall i :: 0 <= i < |posts| ==> posts[i].id != id
    ensures var after := Reconciled(table, posts, now, evictStale);
            && (id in after <==>
                  id in table
                  && if table[id].status == Synced then !evictStale else !SaidElsewhere(posts, id, table[id]))
            && (id in after ==> after[id] == table[id])
  {
    ReconciledPointwise(table, posts, now, evictStale, id);
  }

  // ----- Theorems about reconciliation ---------------------------------------

  /** With eviction on, the synced ids are exactly the remote ids. */
  lemma FullRefreshLeavesTheRemoteIds(table: Table, posts: seq<Post>, now: int, id: string)
    requires posts != []
    ensures var after := Reconciled(table, posts, now, true);
            id in after && after[id].status == Synced <==> id in Ids(posts)
  {
    ReconciledPointwise(table, posts, now, true, id);
  }

  lemma RemoteRowAgain(table: Table, posts: seq<Post>, now: int, evictStale: bool, later: int, id: string)
    requires id in Ids(posts)
    ensures var after := Reconciled(table, posts, now, evictStale);
            RemoteRow(after, posts, later, id) == RemoteRow(table, posts, now, id)
  {
    ReconciledPointwise(table, posts, now, evictStale, id);
  }

  /** Reconciling again, at any later time, changes nothing. */
  lemma ReconcileIsIdempotent(table: Table, posts: seq<Post>, now: int, evictStale: bool, later: int)
    ensures var once := Reconciled(table, posts, now, evictStale);
            Reconciled(once, posts, later, evictStale) == once
  {
    if posts != [] {
      var once := Reconciled(table, posts, now, evictStale);
      var twice := Reconciled(once, posts, later, evictStale);
      forall id
        ensures id in twice <==> id in once
        ensures id in once ==> twice[id] == once[id]
      {
        ReconciledPointwise(table, posts, now, evictStale, id);
        ReconciledPointwise(once, posts, later, evictStale, id);
        if id in Ids(posts) {
          RemoteRowAgain(table, posts, now, evictStale, later, id);
        }
      }
      SameTable(once, twice);
    }
  }

  lemma SameTable(a: Table, b: Table)
    requires forall id :: id in a <==> id in b
    requires forall id :: id in a ==> b[id] == a[id]
    ensures a == b
  {
    assert a.Keys == b.Keys;
  }

  // ----- Reconciliation and confirmation -------------------------------------

  predicate SameButCreatedAt(a: Row, b: Row) {
    a.(createdAt := 0) == b.(createdAt := 0)
  }

  /** Equal tables, except for when the row of `realId` was created. */
  predicate SameUpToCreatedAt(a: Table, b: Table, realId: string) {
    && a.Keys == b.Keys
    && forall id :: id in a ==> if id == realId then SameButCreatedAt(a[id], b[id]) else a[id] == b[id]
  }

  /**
   A confirmation: a real id that the read had found makes it a deletion of the local row; otherwise the
   local row moves to the real id, synced and as it was, and only a foreign row there makes it fail.
   */
  lemma ConfirmExactly(table: Table, localId: string, realId: string, taken: bool)
    ensures var result := ConfirmApplied(table, localId, realId, taken);
            && (result.Err? <==> !taken && localId in table && realId in table && localId != realId)
            && (result.Ok? && (taken || localId !in table) ==> result.value == table - {localId})
            && (result.Ok? && !taken && localId in table ==>
                  && result.value.Keys == table.Keys - {localId} + {realId}
                  && result.value[realId] == table[localId].(status := Synced)
                  && forall id :: id in table && id != localId && id != realId ==> result.value[id] == table[id])
  {
  }

  lemma ConfirmedPointwise(table: Table, localId: string, realId: string, id: string)
    requires id != realId
    ensures id in Confirmed(table, localId, realId) <==> id in table && id != localId
    ensures id in Confirmed(table, localId, realId) ==> Confirmed(table, localId, realId)[id] == table[id]
  {
  }

  predicate AgreeAt(a: Table, b: Table, realId: string, id: string) {
    && (id in a <==> id in b)
    && (id in a ==> if id == realId then SameButCreatedAt(a[id], b[id]) else a[id] == b[id])
  }

  lemma SameExactlyIfAgreeing(a: Table, b: Table, realId: string)
    ensures SameUpToCreatedAt(a, b, realId) <==> forall id :: AgreeAt(a, b, realId, id)
  {
    if forall id :: AgreeAt(a, b, realId, id) {
      forall id
        ensures id in a <==> id in b
      {
        assert AgreeAt(a, b, realId, id);
      }
      assert a.Keys == b.Keys;
      forall id | id in a
        ensures if id == realId then SameButCreatedAt(a[id], b[id]) else a[id] == b[id]
      {
        assert AgreeAt(a, b, realId, id);
      }
    } else if a.Keys == b.Keys {
      assert forall id :: id in a <==> id in a.Keys;
    }
  }

  /**
   When the order of a reconciliation and a confirmation does not matter: the local id is no remote
   id, and the real id is one or the reconciliation treats the two rows alike. It does when there is no
   local row, or none of the two rows is left to be moved or dropped in one order only.
   */
  predicate OrderIsIrrelevant(table: Table, posts: seq<Post>, evictStale: bool, localId: string, realId: string) {
    posts == [] ||
    (localId !in Ids(posts) && (localId == realId || RealRowAgrees(table, posts, evictStale, localId, realId)))
  }

  predicate RealRowAgrees(table: Table, posts: seq<Post>, evictStale: bool, localId: string, realId: string) {
    || realId in Ids(posts)
    || localId !in table
    || if realId in table
       then Survives(table, posts, evictStale, realId) || !Survives(table, posts, evictStale, localId)
       else evictStale != Survives(table, posts, evictStale, localId)
  }

  /** Every row but the one of the real id. */
  lemma OtherRowsAgree(table: Table, posts: seq<Post>, now: int, evictStale: bool, localId: string, realId: string,
                       id: string)
    requires posts != [] && id != realId
    ensures var a := Reconciled(Confirmed(table, localId, realId), posts, now, evictStale);
            var b := Confirmed(Reconciled(table, posts, now, evictStale), localId, realId);
            AgreeAt(a, b, realId, id) <==> id != localId || localId !in Ids(posts)
  {
    var confirmed, reconciled := Confirmed(table, localId, realId), Reconciled(table, posts, now, evictStale);
    hide Reconciled, Confirmed;
    ReconciledPointwise(table, posts, now, evictStale, id);
    ReconciledPointwise(confirmed, posts, now, evictStale, id);
    ConfirmedPointwise(table, localId, realId, id);
    ConfirmedPointwise(reconciled, localId, realId, id);
  }

  lemma RealRowAgreesExactly(table: Table, posts: seq<Post>, now: int, evictStale: bool, localId: string,
                             realId: string)
    requires posts != [] && localId !in Ids(posts) && localId != realId
    ensures var a := Reconciled(Confirmed(table, localId, realId), posts, now, evictStale);
            var b := Confirmed(Reconciled(table, posts, now, evictStale), localId, realId);
            AgreeAt(a, b, realId, realId) <==> RealRowAgrees(table, posts, evictStale, localId, realId)
  {
    var confirmed := Confirmed(table, localId, realId);
    hide Reconciled;
    ReconciledPointwise(table, posts, now, evictStale, localId);
    ReconciledPointwise(table, posts, now, evictStale, realId);
    ReconciledPointwise(confirmed, posts, now, evictStale, realId);
  }

  /** When both ids are the same. */
  lemma SameIdAgreesExactly(table: Table, posts: seq<Post>, now: int, evictStale: bool, id: string)
    requires posts != []
    ensures var a := Reconciled(Confirmed(table, id, id), posts, now, evictStale);
            var b := Confirmed(Reconciled(table, posts, now, evictStale), id, id);
            AgreeAt(a, b, id, id) <==> id !in Ids(posts)
  {
    hide Reconciled;
    ReconciledPointwise(table, posts, now, evictStale, id);
    ReconciledPointwise(Confirmed(table, id, id), posts, now, evictStale, id);
  }

  /**
   For every table, list and pair of ids: confirming before and after the reconciliation give the same
   table, up to `created_at` of that post, exactly when `OrderIsIrrelevant`.
   */
  lemma ReconcileCommutesWithConfirm(table: Table, posts: seq<Post>, now: int, evictStale: bool,
                                     localId: string, realId: string)
    ensures var a := Reconciled(Confirmed(table, localId, realId), posts, now, evictStale);
            var b := Confirmed(Reconciled(table, posts, now, evictStale), localId, realId);
            SameUpToCreatedAt(a, b, realId) <==> OrderIsIrrelevant(table, posts, evictStale, localId, realId)
  {
    hide AgreeAt, RealRowAgrees;
    if posts != [] {
      var a := Reconciled(Confirmed(table, localId, realId), posts, now, evictStale);
      var b := Confirmed(Reconciled(table, posts, now, evictStale), localId, realId);
      hide Reconciled, Confirmed, SameUpToCreatedAt;
      SameExactlyIfAgreeing(a, b, realId);
      forall id | id != realId
        ensures AgreeAt(a, b, realId, id) <==> id != localId || localId !in Ids(posts)
      {
        OtherRowsAgree(table, posts, now, evictStale, localId, realId, id);
      }
      if localId == realId {
        SameIdAgreesExactly(table, posts, now, evictStale, realId);
      } else if localId !in Ids(posts) {
        RealRowAgreesExactly(table, posts, now, evictStale, localId, realId);
      } else {
        assert !AgreeAt(a, b, realId, localId);
      }
    }
  }

  /**
   A full refresh that does not list a post yet: confirming the post first loses it as stale, and
   refreshing first keeps it, if its local row is waiting and is not superseded.
   */
  lemma RefreshDropsAConfirmedPost(table: Table, posts: seq<Post>, now: int, localId: string, realId: string)
    requires posts != [] && localId !in Ids(posts) && realId !in Ids(posts)
    requires localId in table && realId !in table
    requires table[localId].status != Synced && !Superseded(localId, table[localId], posts)
    ensures realId !in Reconciled(Confirmed(table, localId, realId), posts, now, true)
    ensures realId in Confirmed(Reconciled(table, posts, now, true), localId, realId)
  {
    ReconciledPointwise(table, posts, now, true, localId);
    ReconciledPointwise(table, posts, now, true, realId);
    ReconciledPointwise(Confirmed(table, localId, realId), posts, now, true, realId);
  }

  /**
   A reconciliation may slip between the read and the transaction of a confirmation. Then the
   transaction hits the primary key exactly when the reconciliation brought in the real id, which the
   read had not found, and left the local row in place.
   */
  lemma InterleavedConfirmFailsExactly(table: Table, posts: seq<Post>, now: int, evictStale: bool,
                                       localId: string, realId: string)
    ensures ConfirmApplied(Reconciled(table, posts, now, evictStale), localId, realId, realId in table).Err? <==>
            && realId !in table && realId in Ids(posts)
            && localId != realId && Survives(table, posts, evictStale, localId)
  {
    if posts != [] {
      ReconciledPointwise(table, posts, now, evictStale, localId);
      ReconciledPointwise(table, posts, now, evictStale, realId);
    }
  }

  /**
   It never does for the optimistic row of a remote post: same author and content. The local
   row is gone and the transaction changes nothing.
   */
  lemma InterleavedConfirmIsSafe(table: Table, posts: seq<Post>, now: int, evictStale: bool,
                                 localId: string, remote: Post)
    requires remote in posts && remote.id !in table && localId !in Ids(posts)
    requires localId in table && table[localId].status != Synced
    requires table[localId].author == remote.author && table[localId].content == remote.content
    ensures var reconciled := Reconciled(table, posts, now, evictStale);
            ConfirmApplied(reconciled, localId, remote.id, false) == Ok(reconciled)
  {
    var i :| 0 <= i < |posts| && posts[i] == remote;
    assert remote.id in Ids(posts);
    assert Superseded(localId, table[localId], posts);
    ReconciledPointwise(table, posts, now, evictStale, localId);
    var reconciled := Reconciled(table, posts, now, evictStale);
    assert reconciled - {localId} == reconciled;
  }

  // ----- Eviction ------------------------------------------------------------

  function SyncedIds(table: Table): set<string> {
    set id | id in table && table[id].status == Synced
  }

  /** Every synced row, and there is one, is older than the cutoff. */
  predicate EveryRowIsStale(table: Table, cutoff: int) {
    SyncedIds(table) != {} && forall id :: id in SyncedIds(table) ==> table[id].timestamp < cutoff
  }

  function AgeEvicted(table: Table, cutoff: int): Table {
    if EveryRowIsStale(table, cutoff) then table
    else map id | id in table && !(table[id].status == Synced && table[id].timestamp < cutoff) :: table[id]
  }

  ghost predicate ListsNewestFirst(ids: seq<string>, table: Table) {
    && (forall id :: id in ids <==> id in SyncedIds(table))
    && (forall i, j :: 0 <= i < j < |ids| ==> ids[i] != ids[j])
    && (forall i, j :: 0 <= i < j < |ids| && ids[i] in table && ids[j] in table ==>
          table[ids[i]].timestamp >= table[ids[j]].timestamp)
  }

  /** LIMIT: a negative one is no limit. */
  function FirstRows(ids: seq<string>, limit: int): seq<string> {
    if 0 <= limit < |ids| then ids[..limit] else ids
  }

  function Evicted(table: Table, cutoff: int, maxRows: int, newestFirst: seq<string>): Table {
    var young := AgeEvicted(table, cutoff);
    map id | id in young && !(young[id].status == Synced && id !in FirstRows(newestFirst, maxRows)) :: young[id]
  }

  /**
   What eviction leaves, unchanged: every row that is not synced; and of the synced ones, those that are
   not older than the cutoff, or all of them if all are older, as far as they are among the newest `maxRows`.
   */
  lemma EvictedExactly(table: Table, cutoff: int, maxRows: int, newestFirst: seq<string>, id: string)
    requires ListsNewestFirst(newestFirst, AgeEvicted(table, cutoff))
    ensures var after := Evicted(table, cutoff, maxRows, newestFirst);
            var allOld := forall other :: other in table && table[other].status == Synced ==>
                                           table[other].timestamp < cutoff;
            && (id in after <==>
                  && id in table
                  && (table[id].status == Synced ==>
                        && (table[id].timestamp >= cutoff || allOld)
                        && exists n :: 0 <= n < |newestFirst| && newestFirst[n] == id && (maxRows < 0 || n < maxRows)))
            && (id in after ==> after[id] == table[id])
  {
    var first := FirstRows(newestFirst, maxRows);
    assert id in first <==> exists n :: 0 <= n < |first| && first[n] == id;
    assert forall n :: 0 <= n < |first| ==> first[n] == newestFirst[n];
    if id in table && table[id].status == Synced {
      assert id in SyncedIds(table);
      assert id in AgeEvicted(table, cutoff) ==> id in SyncedIds(AgeEvicted(table, cutoff));
    }
  }

  lemma {:induction false} NoMoreThanListed(ids: seq<string>, some: set<string>)
    requires forall id :: id in some ==> id in ids
    ensures |some| <= |ids|
  {
    if ids == [] {
      assert some == {};
    } else {
      var last := ids[|ids| - 1];
      NoMoreThanListed(ids[..|ids| - 1], some - {last});
    }
  }

  /** Eviction removes synced rows only and changes none; a cap leaves at most that many. */
  lemma EvictionKeepsWithinTheCap(table: Table, cutoff: int, maxRows: int, newestFirst: seq<string>)
    requires ListsNewestFirst(newestFirst, AgeEvicted(table, cutoff))
    ensures var after := Evicted(table, cutoff, maxRows, newestFirst);
            && (forall id :: id in after ==> id in table && after[id] == table[id])
            && (forall id :: id in table && table[id].status != Synced ==> id in after)
            && SyncedIds(after) <= SyncedIds(table)
            && (maxRows >= 0 ==> |SyncedIds(after)| <= maxRows)
  {
    var after := Evicted(table, cutoff, maxRows, newestFirst);
    var first := FirstRows(newestFirst, maxRows);
    NoMoreThanListed(first, SyncedIds(after));
  }

  /** A row that the cap deletes is no newer than any synced row that stays. */
  lemma CapDeletesTheOldest(table: Table, cutoff: int, maxRows: int, newestFirst: seq<string>,
                            gone: string, kept: string)
    requires ListsNewestFirst(newestFirst, AgeEvicted(table, cutoff))
    requires gone in AgeEvicted(table, cutoff) && gone !in Evicted(table, cutoff, maxRows, newestFirst)
    requires kept in SyncedIds(Evicted(table, cutoff, maxRows, newestFirst))
    ensures table[kept].timestamp >= table[gone].timestamp
  {
    var young := AgeEvicted(table, cutoff);
    assert gone in SyncedIds(young) && kept in SyncedIds(young);
    var i :| 0 <= i < |newestFirst| && newestFirst[i] == gone;
    var first := FirstRows(newestFirst, maxRows);
    var j :| 0 <= j < |first| && first[j] == kept;
    assert newestFirst[j] == kept;
    assert forall n :: 0 <= n < |first| ==> first[n] == newestFirst[n] && first[n] in first;
  }

  /** Unless every synced row is stale, none of those that stay is older than the cutoff. */
  lemma AgeLimitHolds(table: Table, cutoff: int, maxRows: int, newestFirst: seq<string>, kept: string)
    requires kept in SyncedIds(Evicted(table, cutoff, maxRows, newestFirst))
    ensures table[kept].timestamp >= cutoff || EveryRowIsStale(table, cutoff)
  {
  }

  lemma SomeRowSurvivesTheAgeCheck(table: Table, cutoff: int)
    requires SyncedIds(table) != {}
    ensures SyncedIds(AgeEvicted(table, cutoff)) != {}
  {
    if !EveryRowIsStale(table, cutoff) {
      var id :| id in SyncedIds(table) && table[id].timestamp >= cutoff;
      assert id in SyncedIds(AgeEvicted(table, cutoff));
    } else {
      assert AgeEvicted(table, cutoff) == table;
    }
  }

  predicate IsNewest(table: Table, newest: string) {
    && newest in SyncedIds(table)
    && forall id :: id in SyncedIds(table) ==> table[id].timestamp <= table[newest].timestamp
  }

  /**
   Whatever the timestamps, eviction empties a non-empty synced cache exactly for a cap of 0.
   Otherwise the newest synced row stays.
   */
  lemma EvictionNeverWipesTheCache(table: Table, cutoff: int, maxRows: int, newestFirst: seq<string>)
    requires ListsNewestFirst(newestFirst, AgeEvicted(table, cutoff))
    requires SyncedIds(table) != {}
    ensures SyncedIds(Evicted(table, cutoff, maxRows, newestFirst)) == {} <==> maxRows == 0
    ensures maxRows != 0 ==>
              exists newest :: newest in Evicted(table, cutoff, maxRows, newestFirst) && IsNewest(table, newest)
  {
    var young := AgeEvicted(table, cutoff);
    SomeRowSurvivesTheAgeCheck(table, cutoff);
    var some :| some in SyncedIds(young);
    assert some in newestFirst;
    var newest := newestFirst[0];
    if maxRows != 0 {
      assert FirstRows(newestFirst, maxRows)[0] == newest;
      assert newest in newestFirst;
      assert newest in SyncedIds(Evicted(table, cutoff, maxRows, newestFirst));
      forall id | id in SyncedIds(table)
        ensures table[id].timestamp <= table[newest].timestamp
      {
        if id in young {
          assert id in SyncedIds(young);
          var i :| 0 <= i < |newestFirst| && newestFirst[i] == id;
        } else {
          assert newest in SyncedIds(young);
        }
      }
    }
  }

  lemma {:induction false} DistinctListFits(ids: seq<string>, some: set<string>)
    requires forall i, j :: 0 <= i < j < |ids| ==> ids[i] != ids[j]
    requires forall id :: id in ids ==> id in some
    ensures |ids| <= |some|
  {
    if ids != [] {
      var last := ids[|ids| - 1];
      DistinctListFits(ids[..|ids| - 1], some - {last});
    }
  }

  lemma AgeCheckIsIdempotent(table: Table, cutoff: int, after: Table)
    requires forall id :: id in after ==> id in AgeEvicted(table, cutoff) && after[id] == table[id]
    ensures AgeEvicted(after, cutoff) == after
  {
    forall id | id in after && after[id].status == Synced && after[id].timestamp < cutoff
      ensures EveryRowIsStale(after, cutoff)
    {
      assert id in SyncedIds(after);
    }
    var again := AgeEvicted(after, cutoff);
    assert again.Keys == after.Keys;
  }

  /** Evicting twice at one time is evicting once, however the database breaks ties the second time. */
  lemma EvictionIsIdempotent(table: Table, cutoff: int, maxRows: int, newestFirst: seq<string>, again: seq<string>)
    requires ListsNewestFirst(newestFirst, AgeEvicted(table, cutoff))
    requires ListsNewestFirst(again, AgeEvicted(Evicted(table, cutoff, maxRows, newestFirst), cutoff))
    ensures var once := Evicted(table, cutoff, maxRows, newestFirst);
            Evicted(once, cutoff, maxRows, again) == once
  {
    var once := Evicted(table, cutoff, maxRows, newestFirst);
    EvictionKeepsWithinTheCap(table, cutoff, maxRows, newestFirst);
    AgeCheckIsIdempotent(table, cutoff, once);
    DistinctListFits(again, SyncedIds(once));
    assert FirstRows(again, maxRows) == again;
    var twice := Evicted(once, cutoff, maxRows, again);
    assert twice.Keys == once.Keys;
  }

  // ----- Settling the outbox -------------------------------------------------

  function MarkedFailed(table: Table, localId: string): Table {
    if localId in table then table[localId := table[localId].(status := Failed)] else table
  }

  ghost predicate ListsOptimistic(ids: seq<string>, table: Table) {
    && (forall id :: id in ids <==> id in table && table[id].status != Synced)
    && (forall i, j :: 0 <= i < j < |ids| ==> ids[i] != ids[j])
  }

  /**
   The turn of one post: the real id the indexer finds once its transaction is in, or nothing where the
   submission fails; what others do to the table during the submission, and between the read and the
   transaction of the confirmation.
   */
  datatype Turn = Turn(outcome: Option<string>, submitting: Table -> Table, confirming: Table -> Table)

  /** A failed submission, and a confirmation that breaks the primary key, mark the post failed. */
  function AfterTurn(table: Table, id: string, turn: Turn): Table {
    var submitted := turn.submitting(table);
    match turn.outcome
    case None => MarkedFailed(submitted, id)
    case Some(realId) =>
      var reached := turn.confirming(submitted);
      var confirmed := ConfirmApplied(reached, id, realId, realId in submitted);
      if confirmed.Ok? then confirmed.value else MarkedFailed(reached, id)
  }

  /** The table once the first `n` posts have had their turn. */
  function Settled(table: Table, pending: seq<string>, turns: seq<Turn>, n: nat): Table
    requires n <= |pending| == |turns|
  {
    if n == 0 then table else AfterTurn(Settled(table, pending, turns, n - 1), pending[n - 1], turns[n - 1])
  }

  /**
   Whatever others do meanwhile: right after its turn a post is gone under its local id or marked failed,
   never pending. It is marked failed exactly when its submission failed or the real id turned up between
   the read and the transaction of its confirmation.
   */
  lemma TurnLeavesNothingPending(table: Table, id: string, turn: Turn)
    requires turn.outcome != Some(id)
    ensures var submitted, after := turn.submitting(table), AfterTurn(table, id, turn);
            match turn.outcome
            case None => (id in after <==> id in submitted) && (id in after ==> after[id].status == Failed)
            case Some(realId) =>
              var reached := turn.confirming(submitted);
              && (id in after <==> id in reached && realId !in submitted && realId in reached)
              && (id in after ==> after[id].status == Failed)
              && (id in reached && realId !in submitted && realId !in reached ==>
                    realId in after && after[realId] == reached[id].(status := Synced))
              && (realId in reached ==> realId in after && after[realId] == reached[realId])
    ensures var submitted := turn.submitting(table);
            var reached := if turn.outcome.Some? then turn.confirming(submitted) else submitted;
            forall other :: other != id && turn.outcome != Some(other) ==>
              SameAt(AfterTurn(table, id, turn), reached, other)
  {
  }

  predicate SameAt(a: Table, b: Table, id: string) {
    (id in a <==> id in b) && (id in b ==> a[id] == b[id])
  }

  /** What others do leaves the rows under these ids alone. */
  ghost predicate Spares(f: Table -> Table, ids: set<string>) {
    forall table: Table, id :: id in ids ==> SameAt(f(table), table, id)
  }

  lemma SparedAt(f: Table -> Table, ids: set<string>, table: Table, id: string)
    requires Spares(f, ids) && id in ids
    ensures SameAt(f(table), table, id)
  {
  }

  predicate IsOutcome(turns: seq<Turn>, n: nat, id: string)
    requires n <= |turns|
  {
    exists j :: 0 <= j < n && turns[j].outcome == Some(id)
  }

  /** The local ids and the real ids of the posts are left alone by others. */
  ghost predicate OursAreSpared(pending: seq<string>, turns: seq<Turn>, ours: set<string>) {
    && (forall i :: 0 <= i < |pending| ==> pending[i] in ours)
    && (forall i :: 0 <= i < |turns| && turns[i].outcome.Some? ==> turns[i].outcome.value in ours)
    && (forall i :: 0 <= i < |turns| ==> Spares(turns[i].submitting, ours) && Spares(turns[i].confirming, ours))
  }

  /** One turn that others do not disturb, seen at an id of ours. */
  lemma SparedTurn(table: Table, local: string, turn: Turn, ours: set<string>, id: string)
    requires Spares(turn.submitting, ours) && Spares(turn.confirming, ours)
    requires local in ours && id in ours && (turn.outcome.Some? ==> turn.outcome.value in ours)
    requires turn.outcome != Some(local)
    ensures var after := AfterTurn(table, local, turn);
            && (id != local && turn.outcome != Some(id) ==>
                  (id in after <==> id in table) && (id in table ==> after[id] == table[id]))
            && (id == local && turn.outcome.None? ==>
                  (id in after <==> id in table) && (id in table ==> after[id] == table[id].(status := Failed)))
            && (id == local && turn.outcome.Some? ==> id !in after)
            && (turn.outcome == Some(id) ==>
                  && (id in after <==> id in table || local in table)
                  && (id in after ==> after[id] == if id in table then table[id] else table[local].(status := Synced)))
  {
    hide Spares;
    var submitted := turn.submitting(table);
    SparedAt(turn.submitting, ours, table, id);
    SparedAt(turn.submitting, ours, table, local);
    SparedAt(turn.confirming, ours, submitted, id);
    SparedAt(turn.confirming, ours, submitted, local);
    if turn.outcome.Some? {
      SparedAt(turn.submitting, ours, table, turn.outcome.value);
      SparedAt(turn.confirming, ours, submitted, turn.outcome.value);
    }
  }

  /** A row of ours that is neither a listed post nor a confirmed one is as it was. */
  lemma {:induction false} OtherRowsStay(table: Table, pending: seq<string>, turns: seq<Turn>, ours: set<string>,
                                         n: nat,
                                         id: string)
    requires n <= |pending| == |turns| && OursAreSpared(pending, turns, ours) && id in ours
    requires forall j :: 0 <= j < n ==> turns[j].outcome != Some(pending[j])
    requires !IsOutcome(turns, n, id) && forall j :: 0 <= j < n ==> pending[j] != id
    ensures id in Settled(table, pending, turns, n) <==> id in table
    ensures id in table ==> Settled(table, pending, turns, n)[id] == table[id]
  {
    hide Spares, AfterTurn;
    if n > 0 {
      assert turns[n - 1].outcome != Some(id);
      OtherRowsStay(table, pending, turns, ours, n - 1, id);
      SparedTurn(Settled(table, pending, turns, n - 1), pending[n - 1], turns[n - 1], ours, id);
    }
  }

  /** No real id is the local id of a listed post. */
  ghost predicate RealIdsAreNew(pending: seq<string>, turns: seq<Turn>)
    requires |pending| == |turns|
  {
    forall i, j :: 0 <= i < |turns| && 0 <= j < |pending| ==> turns[i].outcome != Some(pending[j])
  }

  /** A confirmed id is synced from then on. */
  lemma {:induction false} ConfirmedStaysSynced(table: Table, pending: seq<string>, turns: seq<Turn>,
                                                ours: set<string>, n: nat, realId: string)
    requires n <= |pending| == |turns| && ListsOptimistic(pending, table)
    requires OursAreSpared(pending, turns, ours) && RealIdsAreNew(pending, turns)
    requires realId in ours && realId !in pending
    ensures var after := Settled(table, pending, turns, n);
            && (realId in after ==> after[realId].status == Synced)
            && (realId in table || IsOutcome(turns, n, realId) <==> realId in after)
  {
    hide Spares, AfterTurn;
    if n > 0 {
      ConfirmedStaysSynced(table, pending, turns, ours, n - 1, realId);
      var id := pending[n - 1];
      assert id in pending;
      OtherRowsStay(table, pending, turns, ours, n - 1, id);
      SparedTurn(Settled(table, pending, turns, n - 1), id, turns[n - 1], ours, realId);
      assert IsOutcome(turns, n, realId) <==> IsOutcome(turns, n - 1, realId) || turns[n - 1].outcome == Some(realId);
    }
  }

  /**
   When others leave these posts alone, after the loop every listed post is settled: a failed
   submission leaves it in place, marked failed and otherwise as it was; a confirmed one is gone under
   its local id and synced under the real one.
   */
  lemma {:induction false} EveryPendingPostIsSettled(table: Table, pending: seq<string>, turns: seq<Turn>,
                                                     ours: set<string>, n: nat, i: nat)
    requires i < n <= |pending| == |turns| && ListsOptimistic(pending, table)
    requires OursAreSpared(pending, turns, ours) && RealIdsAreNew(pending, turns)
    ensures var after := Settled(table, pending, turns, n);
            match turns[i].outcome
            case None =>
              pending[i] in after && pending[i] in table &&
              after[pending[i]] == table[pending[i]].(status := Failed)
            case Some(realId) => pending[i] !in after && realId in after && after[realId].status == Synced
    decreases n
  {
    hide Spares, AfterTurn;
    var id := pending[i];
    assert id in pending;
    if turns[i].outcome.Some? {
      assert IsOutcome(turns, n, turns[i].outcome.value);
      ConfirmedStaysSynced(table, pending, turns, ours, n, turns[i].outcome.value);
    }
    SparedTurn(Settled(table, pending, turns, n - 1), pending[n - 1], turns[n - 1], ours, id);
    if i == n - 1 {
      OtherRowsStay(table, pending, turns, ours, n - 1, id);
    } else {
      EveryPendingPostIsSettled(table, pending, turns, ours, n - 1, i);
    }
  }
}
