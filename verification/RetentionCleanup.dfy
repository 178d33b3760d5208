/**
 The batched clean-up of the DM relay, the same loop for expired messages and for expired
 idempotency keys: delete at most `limit` expired rows, oldest first, until a batch is short.

 A row is its key and its `created_at`. The clock may move between batches, and among rows of
 one age the database deletes which it likes.
 */
module RetentionCleanup {
  import opened Outcomes

  type Rows<K> = map<K, int>

  /** `NOW()` of each batch. */
  type Clock = nat -> int

  /** The rows a batch deletes, given the table, the cutoff and the limit. */
  type Pick<!K> = (Rows<K>, int, nat) -> set<K>

  function ExpiredKeys<K>(rows: Rows<K>, cutoff: int): set<K> {
    set k | k in rows && rows[k] < cutoff
  }

  /** SELECT ... WHERE created_at < cutoff ORDER BY created_at LIMIT limit. */
  ghost predicate IsOldestBatch<K>(rows: Rows<K>, cutoff: int, limit: nat, batch: set<K>) {
    && batch <= ExpiredKeys(rows, cutoff)
    && |batch| == Least(limit, |ExpiredKeys(rows, cutoff)|)
    && forall gone, left :: gone in batch && left in ExpiredKeys(rows, cutoff) - batch ==> rows[gone] <= rows[left]
  }

  ghost predicate PicksOldest<K(!new)>(pick: Pick<K>) {
    forall rows, cutoff, limit :: IsOldestBatch(rows, cutoff, limit, pick(rows, cutoff, limit))
  }

  ghost predicate NeverGoesBack(clock: Clock) {
    forall i: nat, j: nat :: i <= j ==> clock(i) <= clock(j)
  }

  /** A positive integer. */
  function NormaliseBatchSize(batchSize: real): (limit: nat)
    ensures limit >= 1
    ensures batchSize >= 1.0 ==> limit as real <= batchSize < (limit + 1) as real
    ensures batchSize < 1.0 ==> limit == 1
  {
    if batchSize.Floor < 1 then 1 else batchSize.Floor
  }

  /** `Math.max(0, Math.floor(ttlHours))`. */
  function NormaliseHours(ttlHours: real): (hours: nat)
    ensures ttlHours >= 0.0 ==> hours as real <= ttlHours < (hours + 1) as real
    ensures ttlHours < 0.0 ==> hours == 0
  {
    if ttlHours.Floor < 0 then 0 else ttlHours.Floor
  }

  function Unexpired<K>(rows: Rows<K>, cutoff: int): Rows<K> {
    map k | k in rows && rows[k] >= cutoff :: rows[k]
  }

  /** The table after `n` batches. */
  function AfterBatches<K>(rows: Rows<K>, clock: Clock, ttl: int, limit: nat, pick: Pick<K>, n: nat): Rows<K> {
    if n == 0 then rows
    else
      var before := AfterBatches(rows, clock, ttl, limit, pick, n - 1);
      before - pick(before, clock(n - 1) - ttl, limit)
  }

  // ----- Lemmas about batches ------------------------------------------------

  lemma DeletedCount<K>(rows: Rows<K>, batch: set<K>)
    requires batch <= rows.Keys
    ensures |rows - batch| + |batch| == |rows|
  {
    assert (rows - batch).Keys == rows.Keys - batch;
  }

  /** A short batch took everything that had expired. */
  lemma ShortBatchDrains<K>(rows: Rows<K>, cutoff: int, limit: nat, batch: set<K>)
    requires IsOldestBatch(rows, cutoff, limit, batch) && |batch| < limit
    ensures batch == ExpiredKeys(rows, cutoff)
    ensures ExpiredKeys(rows - batch, cutoff) == {}
  {
    EqualBySize(batch, ExpiredKeys(rows, cutoff));
  }

  /** A batch takes rows created before the cutoff, as many as fit, and none newer than a row it leaves. */
  lemma BatchExactly<K>(rows: Rows<K>, cutoff: int, limit: nat, batch: set<K>)
    requires IsOldestBatch(rows, cutoff, limit, batch)
    ensures |batch| <= limit && forall k :: k in batch ==> k in rows && rows[k] < cutoff
    ensures |batch| < limit ==> forall k :: k in rows - batch ==> rows[k] >= cutoff
    ensures forall gone, left :: gone in batch && left in rows - batch ==> rows[gone] <= rows[left]
  {
    if |batch| < limit {
      EqualBySize(batch, ExpiredKeys(rows, cutoff));
    }
    forall gone, left | gone in batch && left in rows - batch
      ensures rows[gone] <= rows[left]
    {
      if rows[left] < cutoff {
        assert left in ExpiredKeys(rows, cutoff) - batch;
      }
    }
  }

  lemma EqualBySize<K>(part: set<K>, whole: set<K>)
    requires part <= whole && |part| == |whole|
    ensures part == whole
  {
    assert whole == part + (whole - part);
    assert |whole - part| == 0;
  }

  /** Batches keep values, delete only what had expired, and delete oldest first. */
  ghost predicate OldestAreGone<K>(rows: Rows<K>, left: Rows<K>, cutoff: int) {
    && (forall k :: k in left ==> k in rows && left[k] == rows[k])
    && (forall gone :: gone in rows && gone !in left ==> rows[gone] < cutoff)
    && (forall gone, kept :: gone in rows && gone !in left && kept in left ==> rows[gone] <= rows[kept])
  }

  lemma BatchKeepsOldestGone<K>(rows: Rows<K>, left: Rows<K>, earlier: int, cutoff: int, limit: nat, batch: set<K>)
    requires OldestAreGone(rows, left, earlier) && earlier <= cutoff
    requires IsOldestBatch(left, cutoff, limit, batch)
    ensures OldestAreGone(rows, left - batch, cutoff)
  {
    forall gone, kept | gone in rows && gone !in left - batch && kept in left - batch
      ensures rows[gone] <= rows[kept]
    {
      if gone in left && kept in ExpiredKeys(left, cutoff) {
        assert kept in ExpiredKeys(left, cutoff) - batch;
      }
    }
  }

  /**
   However early the loop is interrupted, what it deleted had expired and is no newer than
   anything it left.
   */
  lemma {:induction false} InterruptedCleanupIsOldestFirst<K(!new)>(rows: Rows<K>, clock: Clock, ttl: int, limit: nat,
                                                                    pick: Pick<K>, n: nat)
    requires PicksOldest(pick) && NeverGoesBack(clock)
    ensures OldestAreGone(rows, AfterBatches(rows, clock, ttl, limit, pick, n),
                          clock(if n == 0 then 0 else n - 1) - ttl)
  {
    if n > 0 {
      InterruptedCleanupIsOldestFirst(rows, clock, ttl, limit, pick, n - 1);
      var before := AfterBatches(rows, clock, ttl, limit, pick, n - 1);
      assert clock(if n == 1 then 0 else n - 2) <= clock(n - 1);
      BatchKeepsOldestGone(rows, before, clock(if n == 1 then 0 else n - 2) - ttl, clock(n - 1) - ttl, limit,
                           pick(before, clock(n - 1) - ttl, limit));
    }
  }

  /** Once a batch is short the table is the original one without what has expired by then. */
  lemma DrainedIsUnexpired<K>(rows: Rows<K>, left: Rows<K>, cutoff: int)
    requires OldestAreGone(rows, left, cutoff) && ExpiredKeys(left, cutoff) == {}
    ensures left == Unexpired(rows, cutoff)
  {
    assert forall k :: k in left ==> k !in ExpiredKeys(left, cutoff);
    assert left.Keys == Unexpired(rows, cutoff).Keys;
  }

  lemma LastBatchDrains<K(!new)>(rows: Rows<K>, clock: Clock, ttl: int, limit: nat, pick: Pick<K>, n: nat)
    requires PicksOldest(pick) && NeverGoesBack(clock) && n > 0
    requires ExpiredKeys(AfterBatches(rows, clock, ttl, limit, pick, n), clock(n - 1) - ttl) == {}
    ensures AfterBatches(rows, clock, ttl, limit, pick, n) == Unexpired(rows, clock(n - 1) - ttl)
  {
    InterruptedCleanupIsOldestFirst(rows, clock, ttl, limit, pick, n);
    DrainedIsUnexpired(rows, AfterBatches(rows, clock, ttl, limit, pick, n), clock(n - 1) - ttl);
  }

  lemma AfterNoBatch<K>(rows: Rows<K>, clock: Clock, ttl: int, limit: nat, pick: Pick<K>)
    ensures AfterBatches(rows, clock, ttl, limit, pick, 0) == rows
  {}

  lemma BatchAppends<K>(rows: Rows<K>, clock: Clock, ttl: int, limit: nat, pick: Pick<K>, n: nat, before: Rows<K>,
                        after: Rows<K>)
    requires n > 0 && before == AfterBatches(rows, clock, ttl, limit, pick, n - 1)
    requires after == before - pick(before, clock(n - 1) - ttl, limit)
    ensures after == AfterBatches(rows, clock, ttl, limit, pick, n)
  {}

  /** `limit * n`, a batch at a time. */
  ghost function Rounds(limit: nat, n: nat): nat {
    if n == 0 then 0 else Rounds(limit, n - 1) + limit
  }

  /** All batches but the last are full. */
  ghost predicate FillsBatches(total: nat, limit: nat, batches: nat) {
    batches > 0 && Rounds(limit, batches - 1) <= total < Rounds(limit, batches - 1) + limit
  }

  /** In numbers: one statement for every `limit` rows removed, and one more. */
  lemma {:induction false} RoundsAreProducts(limit: nat, n: nat)
    ensures Rounds(limit, n) == limit * n
  {
    if n > 0 {
      RoundsAreProducts(limit, n - 1);
      assert limit * n == limit * (n - 1) + limit;
    }
  }

  /** The table left: every row not created before the cutoff, unchanged, and nothing else. */
  lemma UnexpiredExactly<K>(rows: Rows<K>, cutoff: int)
    ensures forall k :: k in Unexpired(rows, cutoff) <==> k in rows && rows[k] >= cutoff
    ensures forall k :: k in Unexpired(rows, cutoff) ==> Unexpired(rows, cutoff)[k] == rows[k]
  {
  }

  class RetentionStore<K(==, !new)> {
    var rows: Rows<K>

    constructor ()
      ensures rows == map[]
    {
      rows := map[];
    }

    /** One DELETE statement; the result is its row count. */
    method DeleteBatch(cutoff: int, limit: nat, pick: Pick<K>) returns (deleted: nat)
      requires PicksOldest(pick)
      modifies this
      ensures rows == old(rows) - pick(old(rows), cutoff, limit)
      ensures deleted == |pick(old(rows), cutoff, limit)| && deleted + |rows| == |old(rows)|
      ensures deleted < limit ==> ExpiredKeys(rows, cutoff) == {}
      ensures deleted <= limit
    {
      var batch := pick(rows, cutoff, limit);
      assert IsOldestBatch(rows, cutoff, limit, batch);
      DeletedCount(rows, batch);
      if |batch| < limit {
        ShortBatchDrains(rows, cutoff, limit, batch);
      }
      rows := rows - batch;
      deleted := |batch|;
    }

    /**
     Returns the number of rows removed: exactly those that had expired by the last batch, which
     is batch number `batches - 1`. However the database breaks ties, and however the clock moves
     on, nothing expired is left and nothing unexpired is gone.
     */
    method DeleteExpired(ttl: int, batchSize: real, clock: Clock, pick: Pick<K>) returns (total: nat,
                         ghost batches: nat)
      requires PicksOldest(pick) && NeverGoesBack(clock)
      modifies this
      ensures total == |old(rows)| - |rows|
      ensures batches > 0 && rows == Unexpired(old(rows), clock(batches - 1) - ttl)
      ensures FillsBatches(total, NormaliseBatchSize(batchSize), batches)
    {
      hide PicksOldest, NeverGoesBack, OldestAreGone, ExpiredKeys, Unexpired, AfterBatches;
      AfterNoBatch(rows, clock, ttl, NormaliseBatchSize(batchSize), pick);
      var limit := NormaliseBatchSize(batchSize);
      total := 0;
      batches := 0;
      var next: nat := 0;
      while true
        invariant next == batches
        invariant rows == AfterBatches(old(rows), clock, ttl, limit, pick, batches)
        invariant total + |rows| == |old(rows)|
        invariant total == Rounds(limit, batches)
        decreases |rows|
      {
        var cutoff := clock(next) - ttl;
        ghost var before := rows;
        var deleted := DeleteBatch(cutoff, limit, pick);
        total := total + deleted;
        next := next + 1;
        batches := batches + 1;
        BatchAppends(old(rows), clock, ttl, limit, pick, batches, before, rows);
        if deleted < limit {
          LastBatchDrains(old(rows), clock, ttl, limit, pick, batches);
          return;
        }
      }
    }

    /** Expired messages: the age limit is in days. */
    method DeleteExpiredMessages(ttlDays: int, batchSize: real, clock: Clock, pick: Pick<K>)
      returns (total: nat, ghost batches: nat)
      requires PicksOldest(pick) && NeverGoesBack(clock)
      modifies this
      ensures total == |old(rows)| - |rows|
      ensures batches > 0 && rows == Unexpired(old(rows), clock(batches - 1) - ttlDays * MS_PER_DAY)
      ensures forall k :: k in rows <==> k in old(rows) && old(rows)[k] >= clock(batches - 1) - ttlDays * 86_400_000
      ensures FillsBatches(total, NormaliseBatchSize(batchSize), batches)
    {
      total, batches := DeleteExpired(ttlDays * MS_PER_DAY, batchSize, clock, pick);
    }

    /** Expired idempotency keys: the age limit is in whole hours, and never negative. */
    method DeleteExpiredIdempotencyKeys(ttlHours: real, batchSize: real, clock: Clock, pick: Pick<K>)
      returns (total: nat, ghost batches: nat)
      requires PicksOldest(pick) && NeverGoesBack(clock)
      modifies this
      ensures total == |old(rows)| - |rows|
      ensures batches > 0 &&
              rows == Unexpired(old(rows), clock(batches - 1) - NormaliseHours(ttlHours) * MS_PER_HOUR)
      ensures forall k :: k in rows <==>
                k in old(rows) && old(rows)[k] >= clock(batches - 1) - NormaliseHours(ttlHours) * 3_600_000
      ensures FillsBatches(total, NormaliseBatchSize(batchSize), batches)
    {
      total, batches := DeleteExpired(NormaliseHours(ttlHours) * MS_PER_HOUR, batchSize, clock, pick);
    }
  }

  const MS_PER_HOUR := 3_600_000
  const MS_PER_DAY := 86_400_000
}
