/**
 The attestation cache as a value: a most-recent-first sequence of entries with
 the counters and the identities it is scoped to. `AttestationCache` proves the
 linked-list implementation equal to it, operation by operation; here the
 operations are related to the history that led to a state.
 */
module CacheModel {
  import opened Outcomes

  datatype Entry<V> = Entry(key: string, value: V, insertedAt: int)
  datatype Window = Window(start: int, end: int)

  datatype Cache<V> = Cache(
    maxSize: nat,
    ttlMs: nat,
    entries: seq<Entry<V>>,
    signerId: Option<string>,
    window: Option<Window>,
    hits: nat,
    misses: nat,
    evictions: nat)

  datatype Op<V> =
    | Get(key: string, now: int)
    | Set(key: string, value: V, now: int)
    | Delete(key: string)
    | PurgeExpired(now: int)
    | Clear
    | SetSignerId(id: Option<string>)
    | BeginWindow(start: int, end: int)

  // ---------------------------------------------------------------------
  // Entries
  // ---------------------------------------------------------------------

  ghost predicate DistinctKeys<V>(es: seq<Entry<V>>) {
    forall i, j :: 0 <= i < j < |es| ==> es[i].key != es[j].key
  }

  function Find<V>(es: seq<Entry<V>>, key: string): (r: Option<Entry<V>>)
    ensures r.None? <==> forall i :: 0 <= i < |es| ==> es[i].key != key
    ensures r.Some? ==> r.value.key == key
  {
    if es == [] then None
    else if es[0].key == key then Some(es[0])
    else Find(es[1..], key)
  }

  function Without<V>(es: seq<Entry<V>>, key: string): (r: seq<Entry<V>>)
    ensures forall i :: 0 <= i < |r| ==> r[i].key != key
  {
    if es == [] then []
    else if es[0].key == key then Without(es[1..], key)
    else [es[0]] + Without(es[1..], key)
  }

  predicate Expired<V>(e: Entry<V>, ttlMs: nat, now: int) {
    ttlMs > 0 && now - e.insertedAt > ttlMs
  }

  /** The unexpired entries, in order. */
  function Survivors<V>(es: seq<Entry<V>>, ttlMs: nat, now: int): (r: seq<Entry<V>>)
    ensures forall i :: 0 <= i < |r| ==> !Expired(r[i], ttlMs, now)
    ensures |r| <= |es|
  {
    if es == [] then []
    else if Expired(es[0], ttlMs, now) then Survivors(es[1..], ttlMs, now)
    else [es[0]] + Survivors(es[1..], ttlMs, now)
  }

  // ---------------------------------------------------------------------
  // Operations
  // ---------------------------------------------------------------------

  function Empty<V>(maxSize: nat, ttlMs: nat): Cache<V> {
    Cache(maxSize, ttlMs, [], None, None, 0, 0, 0)
  }

  function AfterGet<V>(c: Cache<V>, key: string, now: int): Cache<V> {
    match Find(c.entries, key)
    case None => c.(misses := c.misses + 1)
    case Some(e) =>
      if Expired(e, c.ttlMs, now)
      then c.(entries := Without(c.entries, key), misses := c.misses + 1, evictions := c.evictions + 1)
      else c.(entries := [e] + Without(c.entries, key), hits := c.hits + 1)
  }

  function Answer<V>(c: Cache<V>, key: string, now: int): Option<V> {
    match Find(c.entries, key)
    case None => None
    case Some(e) => if Expired(e, c.ttlMs, now) then None else Some(e.value)
  }

  /** A full cache drops its last entry to make room for a new key. */
  predicate EvictsFor<V>(c: Cache<V>, key: string) {
    Find(c.entries, key).None? && |c.entries| >= c.maxSize && |c.entries| > 0
  }

  function AfterSet<V>(c: Cache<V>, key: string, value: V, now: int): Cache<V> {
    var added := Entry(key, value, now);
    if EvictsFor(c, key)
    then c.(entries := [added] + c.entries[..|c.entries| - 1], evictions := c.evictions + 1)
    else c.(entries := [added] + Without(c.entries, key))
  }

  function AfterDelete<V>(c: Cache<V>, key: string): Cache<V> {
    c.(entries := Without(c.entries, key))
  }

  function AfterPurge<V>(c: Cache<V>, now: int): Cache<V> {
    var kept := Survivors(c.entries, c.ttlMs, now);
    c.(entries := kept, evictions := c.evictions + (|c.entries| - |kept|))
  }

  function AfterSetSignerId<V>(c: Cache<V>, id: Option<string>): Cache<V> {
    if id == c.signerId then c else c.(entries := [], signerId := id)
  }

  predicate ValidWindow(start: int, end: int) {
    0 < start < end
  }

  /** An invalid window is refused with an exception and changes nothing. */
  function AfterBeginWindow<V>(c: Cache<V>, start: int, end: int): Cache<V> {
    if !ValidWindow(start, end) || c.window == Some(Window(start, end)) then c
    else c.(entries := [], window := Some(Window(start, end)))
  }

  function Step<V>(c: Cache<V>, op: Op<V>): Cache<V> {
    match op
    case Get(key, now) => AfterGet(c, key, now)
    case Set(key, value, now) => AfterSet(c, key, value, now)
    case Delete(key) => AfterDelete(c, key)
    case PurgeExpired(now) => AfterPurge(c, now)
    case Clear => c.(entries := [])
    case SetSignerId(id) => AfterSetSignerId(c, id)
    case BeginWindow(start, end) => AfterBeginWindow(c, start, end)
  }

  /** The cache after a whole history of operations. */
  function Run<V>(maxSize: nat, ttlMs: nat, ops: seq<Op<V>>): Cache<V>
    decreases |ops|
  {
    if ops == [] then Empty(maxSize, ttlMs)
    else Step(Run(maxSize, ttlMs, ops[..|ops| - 1]), ops[|ops| - 1])
  }

  // ---------------------------------------------------------------------
  // Lemmas on sequences of entries
  // ---------------------------------------------------------------------

  /** `r` is the entries of `es` at the increasing positions `at`. */
  ghost predicate Picks<V>(r: seq<Entry<V>>, es: seq<Entry<V>>, at: seq<nat>) {
    && |at| == |r|
    && (forall i :: 0 <= i < |r| ==> at[i] < |es| && r[i] == es[at[i]])
    && (forall i, j :: 0 <= i < j < |r| ==> at[i] < at[j])
  }

  /** `r` keeps some of the entries of `es`, in their order. */
  ghost predicate Thins<V>(r: seq<Entry<V>>, es: seq<Entry<V>>) {
    exists at :: Picks(r, es, at)
  }

  lemma PicksTail<V>(r: seq<Entry<V>>, es: seq<Entry<V>>, at: seq<nat>, shifted: seq<nat>)
    requires |es| > 0 && Picks(r, es[1..], at)
    requires |shifted| == |at| && forall i :: 0 <= i < |at| ==> shifted[i] == at[i] + 1
    ensures Picks(r, es, shifted)
  {
  }

  lemma PicksFirst<V>(r: seq<Entry<V>>, es: seq<Entry<V>>, at: seq<nat>)
    requires |es| > 0 && Picks(r, es, at) && (|at| > 0 ==> at[0] > 0)
    ensures Picks([es[0]] + r, es, [0] + at)
  {
    var more, first := [es[0]] + r, [0] + at;
    forall i | 0 <= i < |more|
      ensures first[i] < |es| && more[i] == es[first[i]]
    {
      assert i > 0 ==> more[i] == r[i - 1] && first[i] == at[i - 1];
    }
  }

  lemma ThinsTail<V>(r: seq<Entry<V>>, es: seq<Entry<V>>)
    requires |es| > 0 && Thins(r, es[1..])
    ensures Thins(r, es) && Thins([es[0]] + r, es)
  {
    hide Picks;
    var at :| Picks(r, es[1..], at);
    var shifted: seq<nat> := seq(|at|, i requires 0 <= i < |at| => at[i] + 1);
    PicksTail(r, es, at, shifted);
    PicksFirst(r, es, shifted);
  }

  lemma ThinsKeepsDistinct<V>(r: seq<Entry<V>>, es: seq<Entry<V>>)
    requires Thins(r, es) && DistinctKeys(es)
    ensures DistinctKeys(r)
  {
    var at :| Picks(r, es, at);
  }

  lemma PrefixThins<V>(es: seq<Entry<V>>, n: nat)
    requires n <= |es|
    ensures Thins(es[..n], es)
  {
    var at: seq<nat> := seq(n, i => i);
    assert Picks(es[..n], es, at);
  }

  lemma {:induction false} WithoutThins<V>(es: seq<Entry<V>>, key: string)
    ensures Thins(Without(es, key), es)
    ensures |Without(es, key)| <= |es|
    ensures Find(es, key).Some? ==> |Without(es, key)| < |es|
  {
    if es == [] {
      PrefixThins(es, 0);
    } else {
      WithoutThins(es[1..], key);
      ThinsTail(Without(es[1..], key), es);
    }
  }

  /** Purging keeps the survivors' order... */
  lemma {:induction false} SurvivorsThin<V>(es: seq<Entry<V>>, ttlMs: nat, now: int)
    ensures Thins(Survivors(es, ttlMs, now), es)
  {
    if es == [] {
      PrefixThins(es, 0);
    } else {
      SurvivorsThin(es[1..], ttlMs, now);
      ThinsTail(Survivors(es[1..], ttlMs, now), es);
    }
  }

  /** ...and removes exactly the expired entries. */
  lemma {:induction false} SurvivorsAreTheUnexpired<V>(es: seq<Entry<V>>, ttlMs: nat, now: int, e: Entry<V>)
    ensures e in Survivors(es, ttlMs, now) <==> e in es && !Expired(e, ttlMs, now)
  {
    if es != [] {
      SurvivorsAreTheUnexpired(es[1..], ttlMs, now, e);
    }
  }

  /** Removing the key at position `i` of a list without repeated keys. */
  lemma {:induction false} WithoutAt<V>(es: seq<Entry<V>>, i: nat)
    requires i < |es| && DistinctKeys(es)
    ensures Without(es, es[i].key) == es[..i] + es[i + 1..]
    ensures Find(es, es[i].key) == Some(es[i])
  {
    if i == 0 {
      WithoutAbsent(es[1..], es[0].key);
    } else {
      WithoutAt(es[1..], i - 1);
      assert es[..i] == [es[0]] + es[1..][..i - 1] && es[i + 1..] == es[1..][i..];
    }
  }

  lemma {:induction false} FindAt<V>(es: seq<Entry<V>>, key: string) returns (i: nat)
    requires Find(es, key).Some?
    ensures i < |es| && Find(es, key) == Some(es[i])
  {
    if es[0].key == key {
      i := 0;
    } else {
      var j := FindAt(es[1..], key);
      i := j + 1;
    }
  }

  lemma {:induction false} WithoutAbsent<V>(es: seq<Entry<V>>, key: string)
    requires forall i :: 0 <= i < |es| ==> es[i].key != key
    ensures Without(es, key) == es && Find(es, key).None?
  {
    if es != [] {
      WithoutAbsent(es[1..], key);
    }
  }

  // ---------------------------------------------------------------------
  // What every operation does
  // ---------------------------------------------------------------------

  /** A get of an absent key is a miss and nothing else. */
  lemma GetAbsentExactly<V>(c: Cache<V>, key: string, now: int)
    requires forall i :: 0 <= i < |c.entries| ==> c.entries[i].key != key
    ensures Answer(c, key, now) == None && AfterGet(c, key, now) == c.(misses := c.misses + 1)
  {
  }

  /** A get of a key past its time to live drops the entry; any other one is a hit and moves it to the front. */
  lemma GetExactly<V>(c: Cache<V>, i: nat, now: int)
    requires DistinctKeys(c.entries) && i < |c.entries|
    ensures var e, rest := c.entries[i], c.entries[..i] + c.entries[i + 1..];
            if c.ttlMs > 0 && now - e.insertedAt > c.ttlMs
            then
              && Answer(c, e.key, now) == None
              && AfterGet(c, e.key, now) == c.(entries := rest, misses := c.misses + 1, evictions := c.evictions + 1)
            else
              && Answer(c, e.key, now) == Some(e.value)
              && AfterGet(c, e.key, now) == c.(entries := [e] + rest, hits := c.hits + 1)
  {
    WithoutAt(c.entries, i);
  }

  /** A new key goes to the front; only a full cache drops its last entry for it. */
  lemma SetAbsentExactly<V>(c: Cache<V>, key: string, value: V, now: int)
    requires c.maxSize >= 1 && forall i :: 0 <= i < |c.entries| ==> c.entries[i].key != key
    ensures AfterSet(c, key, value, now) ==
            if |c.entries| >= c.maxSize
            then c.(entries := [Entry(key, value, now)] + c.entries[..|c.entries| - 1], evictions := c.evictions + 1)
            else c.(entries := [Entry(key, value, now)] + c.entries)
  {
    WithoutAbsent(c.entries, key);
  }

  /** A present key gets the new value and time, and moves to the front. */
  lemma SetPresentExactly<V>(c: Cache<V>, i: nat, value: V, now: int)
    requires DistinctKeys(c.entries) && i < |c.entries|
    ensures var key, rest := c.entries[i].key, c.entries[..i] + c.entries[i + 1..];
            AfterSet(c, key, value, now) == c.(entries := [Entry(key, value, now)] + rest)
  {
    WithoutAt(c.entries, i);
  }

  lemma DeleteExactly<V>(c: Cache<V>, key: string)
    requires DistinctKeys(c.entries)
    ensures (forall i :: 0 <= i < |c.entries| ==> c.entries[i].key != key) ==> AfterDelete(c, key) == c
    ensures forall i :: 0 <= i < |c.entries| && c.entries[i].key == key ==>
              AfterDelete(c, key) == c.(entries := c.entries[..i] + c.entries[i + 1..])
  {
    if forall i :: 0 <= i < |c.entries| ==> c.entries[i].key != key {
      WithoutAbsent(c.entries, key);
    }
    forall i | 0 <= i < |c.entries| && c.entries[i].key == key
      ensures AfterDelete(c, key) == c.(entries := c.entries[..i] + c.entries[i + 1..])
    {
      WithoutAt(c.entries, i);
    }
  }

  /** A purge keeps exactly the entries within their time to live, in order, and counts the others. */
  lemma PurgeExactly<V>(c: Cache<V>, now: int)
    ensures var kept := AfterPurge(c, now).entries;
            && Thins(kept, c.entries)
            && (forall e :: e in kept <==> e in c.entries && (c.ttlMs == 0 || now - e.insertedAt <= c.ttlMs))
            && AfterPurge(c, now) == c.(entries := kept, evictions := c.evictions + |c.entries| - |kept|)
  {
    SurvivorsThin(c.entries, c.ttlMs, now);
    forall e
      ensures e in AfterPurge(c, now).entries <==>
              e in c.entries && (c.ttlMs == 0 || now - e.insertedAt <= c.ttlMs)
    {
      SurvivorsAreTheUnexpired(c.entries, c.ttlMs, now, e);
    }
  }

  /** Another signer or another valid window empties the cache and is remembered; no counter moves. */
  lemma InvalidationExactly<V>(c: Cache<V>, id: Option<string>, start: int, end: int)
    ensures AfterSetSignerId(c, id) == if id == c.signerId then c else c.(entries := [], signerId := id)
    ensures AfterBeginWindow(c, start, end) ==
            if 0 < start < end && c.window != Some(Window(start, end))
            then c.(entries := [], window := Some(Window(start, end)))
            else c
  {
  }

  // ---------------------------------------------------------------------
  // Histories
  // ---------------------------------------------------------------------

  /** Position in the history of the last get or set of `key`, or -1. */
  function LastUse<V>(ops: seq<Op<V>>, key: string): (at: int)
    ensures -1 <= at < |ops|
  {
    if ops == [] then -1
    else
      var last := ops[|ops| - 1];
      if (last.Get? || last.Set?) && last.key == key then |ops| - 1
      else LastUse(ops[..|ops| - 1], key)
  }

  /** Position in the history of the last set of `key`, or -1. */
  function LastSet<V>(ops: seq<Op<V>>, key: string): (at: int)
    ensures -1 <= at < |ops|
    ensures at >= 0 ==> ops[at].Set? && ops[at].key == key
  {
    if ops == [] then -1
    else if ops[|ops| - 1].Set? && ops[|ops| - 1].key == key then |ops| - 1
    else LastSet(ops[..|ops| - 1], key)
  }

  function Gets<V>(ops: seq<Op<V>>): nat {
    if ops == [] then 0 else Gets(ops[..|ops| - 1]) + (if ops[|ops| - 1].Get? then 1 else 0)
  }

  /** The gets of a history that were answered. */
  function AnsweredGets<V>(maxSize: nat, ttlMs: nat, ops: seq<Op<V>>): nat
    decreases |ops|
  {
    if ops == [] then 0
    else
      var before, last := ops[..|ops| - 1], ops[|ops| - 1];
      AnsweredGets(maxSize, ttlMs, before)
      + (if last.Get? && Answer(Run(maxSize, ttlMs, before), last.key, last.now).Some? then 1 else 0)
  }

  /** Entries stand in the order of their last use, most recent first. */
  ghost predicate RecentFirst<V>(es: seq<Entry<V>>, ops: seq<Op<V>>) {
    forall i, j :: 0 <= i < j < |es| ==> LastUse(ops, es[i].key) > LastUse(ops, es[j].key)
  }

  /** Every entry is what the last set of its key stored. */
  ghost predicate FromLastSet<V>(es: seq<Entry<V>>, ops: seq<Op<V>>) {
    forall i :: 0 <= i < |es| ==>
      LastSet(ops, es[i].key) >= 0 && ops[LastSet(ops, es[i].key)] == Set(es[i].key, es[i].value, es[i].insertedAt)
  }

  /** What every reachable cache satisfies. */
  ghost predicate Reached<V>(c: Cache<V>, ops: seq<Op<V>>) {
    && DistinctKeys(c.entries)
    && |c.entries| <= c.maxSize
    && RecentFirst(c.entries, ops)
    && FromLastSet(c.entries, ops)
    && c.hits + c.misses == Gets(ops)
  }

  /** A thinner list is still in order; an operation on another key changes nothing for it. */
  lemma ThinsKeepsHistory<V>(r: seq<Entry<V>>, es: seq<Entry<V>>, before: seq<Op<V>>, op: Op<V>)
    requires Thins(r, es) && DistinctKeys(es) && RecentFirst(es, before) && FromLastSet(es, before)
    requires op.Get? || op.Set? ==> forall i :: 0 <= i < |r| ==> r[i].key != op.key
    ensures DistinctKeys(r) && RecentFirst(r, before + [op]) && FromLastSet(r, before + [op])
  {
    ThinsKeepsDistinct(r, es);
    var at :| Picks(r, es, at);
    var ops := before + [op];
    assert ops[..|ops| - 1] == before;
    forall i | 0 <= i < |r|
      ensures LastUse(ops, r[i].key) == LastUse(before, es[at[i]].key)
      ensures LastSet(ops, r[i].key) == LastSet(before, es[at[i]].key)
    {
    }
  }

  /** Putting the entry of the key just used in front of the others keeps the order. */
  lemma UsedNow<V>(r: seq<Entry<V>>, e: Entry<V>, ops: seq<Op<V>>)
    requires DistinctKeys(r) && RecentFirst(r, ops) && FromLastSet(r, ops)
    requires forall i :: 0 <= i < |r| ==> r[i].key != e.key
    requires |ops| > 0 && (ops[|ops| - 1].Get? || ops[|ops| - 1].Set?) && ops[|ops| - 1].key == e.key
    requires FromLastSet([e], ops)
    ensures DistinctKeys([e] + r) && RecentFirst([e] + r, ops) && FromLastSet([e] + r, ops)
  {
    var es := [e] + r;
    forall i | 0 <= i < |r| ensures LastUse(ops, r[i].key) < |ops| - 1 {
    }
    assert [e][0] == e;
    assert forall i :: 0 < i < |es| ==> es[i] == r[i - 1];
  }

  /**
   Every history of operations leaves distinct keys, at most `maxSize` entries in
   order of last use, each holding what was last stored under its key, and counts
   every get as a hit or a miss.
   */
  lemma {:induction false} EveryHistory<V>(maxSize: nat, ttlMs: nat, ops: seq<Op<V>>)
    requires maxSize >= 1
    ensures Reached(Run(maxSize, ttlMs, ops), ops)
    ensures Run(maxSize, ttlMs, ops).maxSize == maxSize && Run(maxSize, ttlMs, ops).ttlMs == ttlMs
    decreases |ops|
  {
    if ops != [] {
      var before, op := ops[..|ops| - 1], ops[|ops| - 1];
      EveryHistory(maxSize, ttlMs, before);
      assert before + [op] == ops;
      StepKeepsHistory(Run(maxSize, ttlMs, before), before, op);
    }
  }

  /** The hits are the gets that were answered, the misses the others. */
  lemma {:induction false} HitsAreTheAnsweredGets<V>(maxSize: nat, ttlMs: nat, ops: seq<Op<V>>)
    ensures Run(maxSize, ttlMs, ops).hits == AnsweredGets(maxSize, ttlMs, ops)
    ensures Run(maxSize, ttlMs, ops).misses == Gets(ops) - AnsweredGets(maxSize, ttlMs, ops)
    decreases |ops|
  {
    if ops != [] {
      HitsAreTheAnsweredGets(maxSize, ttlMs, ops[..|ops| - 1]);
    }
  }

  lemma GetKeepsHistory<V>(c: Cache<V>, before: seq<Op<V>>, key: string, now: int)
    requires c.maxSize >= 1 && Reached(c, before)
    ensures Reached(AfterGet(c, key, now), before + [Get(key, now)])
  {
    var es, op := c.entries, Get(key, now);
    assert (before + [op])[..|before|] == before;
    PrefixThins(es, |es|);
    assert es[..|es|] == es;
    WithoutThins(es, key);
    if Find(es, key).None? {
      ThinsKeepsHistory(es, es, before, op);
    } else {
      ThinsKeepsHistory(Without(es, key), es, before, op);
      var i := FindAt(es, key);
      UsedNow(Without(es, key), es[i], before + [op]);
    }
  }

  lemma SetKeepsHistory<V>(c: Cache<V>, before: seq<Op<V>>, key: string, value: V, now: int)
    requires c.maxSize >= 1 && Reached(c, before)
    ensures Reached(AfterSet(c, key, value, now), before + [Set(key, value, now)])
  {
    var es, op := c.entries, Set(key, value, now);
    assert (before + [op])[..|before|] == before;
    WithoutThins(es, key);
    PrefixThins(es, |es| - (if EvictsFor(c, key) then 1 else 0));
    var kept := if EvictsFor(c, key) then es[..|es| - 1] else Without(es, key);
    ThinsKeepsHistory(kept, es, before, op);
    UsedNow(kept, Entry(key, value, now), before + [op]);
  }

  /** An operation that only removes entries. */
  lemma RemovalKeepsHistory<V>(c: Cache<V>, after: Cache<V>, before: seq<Op<V>>, op: Op<V>)
    requires Reached(c, before) && Thins(after.entries, c.entries) && |after.entries| <= |c.entries|
    requires after.maxSize == c.maxSize && after.hits == c.hits && after.misses == c.misses
    requires !op.Get? && !op.Set?
    ensures Reached(after, before + [op])
  {
    assert (before + [op])[..|before|] == before;
    ThinsKeepsHistory(after.entries, c.entries, before, op);
  }

  lemma StepKeepsHistory<V>(c: Cache<V>, before: seq<Op<V>>, op: Op<V>)
    requires c.maxSize >= 1 && Reached(c, before)
    ensures Reached(Step(c, op), before + [op])
    ensures Step(c, op).maxSize == c.maxSize && Step(c, op).ttlMs == c.ttlMs
  {
    var es := c.entries;
    if op.Get? {
      GetKeepsHistory(c, before, op.key, op.now);
    } else if op.Set? {
      SetKeepsHistory(c, before, op.key, op.value, op.now);
    } else {
      PrefixThins(es, 0);
      PrefixThins(es, |es|);
      assert es[..|es|] == es;
      if op.Delete? {
        WithoutThins(es, op.key);
      } else if op.PurgeExpired? {
        SurvivorsThin(es, c.ttlMs, op.now);
      }
      RemovalKeepsHistory(c, Step(c, op), before, op);
    }
  }

  /**
   Whatever the history, storing a new key in a full cache drops exactly one
   entry, and every entry that stays was used after it.
   */
  lemma EvictionDropsLeastRecentlyUsed<V>(maxSize: nat, ttlMs: nat, ops: seq<Op<V>>, key: string, value: V, now: int)
    returns (victim: Entry<V>)
    requires maxSize >= 1 && EvictsFor(Run(maxSize, ttlMs, ops), key)
    ensures var c := Run(maxSize, ttlMs, ops);
            && c.entries == c.entries[..|c.entries| - 1] + [victim]
            && AfterSet(c, key, value, now).entries == [Entry(key, value, now)] + c.entries[..|c.entries| - 1]
            && (forall i :: 0 <= i < |c.entries| - 1 ==> LastUse(ops, c.entries[i].key) > LastUse(ops, victim.key))
  {
    EveryHistory(maxSize, ttlMs, ops);
    var es := Run(maxSize, ttlMs, ops).entries;
    victim := es[|es| - 1];
  }

  /** Storing `key` at `now` drops a live entry of another key while an expired one stays. */
  ghost predicate DropsLiveForExpired<V>(c: Cache<V>, key: string, value: V, now: int) {
    var after := AfterSet(c, key, value, now).entries;
    exists live, stale ::
      && live in c.entries && live.key != key && !Expired(live, c.ttlMs, now) && live !in after
      && stale in c.entries && Expired(stale, c.ttlMs, now) && stale in after
  }

  /** What a caller can check first: the last entry is evicted and live, and an earlier one has expired. */
  ghost predicate LastLiveOtherExpired<V>(c: Cache<V>, key: string, now: int) {
    && EvictsFor(c, key)
    && !Expired(c.entries[|c.entries| - 1], c.ttlMs, now)
    && exists j :: 0 <= j < |c.entries| - 1 && Expired(c.entries[j], c.ttlMs, now)
  }

  lemma {:induction false} WithoutMembers<V>(es: seq<Entry<V>>, key: string, e: Entry<V>)
    ensures e in Without(es, key) <==> e in es && e.key != key
  {
    if es != [] {
      WithoutMembers(es[1..], key, e);
      assert es == [es[0]] + es[1..];
    }
  }

  /** A `set` loses another key's entry only by eviction, and then exactly the last one. */
  lemma LostBySet<V>(c: Cache<V>, key: string, value: V, now: int, e: Entry<V>)
    requires DistinctKeys(c.entries) && e in c.entries && e.key != key
    ensures e !in AfterSet(c, key, value, now).entries <==> EvictsFor(c, key) && e == c.entries[|c.entries| - 1]
  {
    var es := c.entries;
    var i :| 0 <= i < |es| && es[i] == e;
    if EvictsFor(c, key) {
      assert i < |es| - 1 ==> es[..|es| - 1][i] == e;
    } else {
      WithoutMembers(es, key, e);
    }
  }

  /**
   The eviction order ignores the time to live, and this is exactly when it shows: for every cache,
   a `set` drops a live entry of another key while an expired one stays if and only if it evicts, the
   last entry is live and an earlier one has expired.
   */
  lemma DropsLiveForExpiredExactly<V>(c: Cache<V>, key: string, value: V, now: int)
    requires DistinctKeys(c.entries)
    ensures DropsLiveForExpired(c, key, value, now) <==> LastLiveOtherExpired(c, key, now)
  {
    hide AfterSet, DistinctKeys;
    var es, after := c.entries, AfterSet(c, key, value, now).entries;
    if DropsLiveForExpired(c, key, value, now) {
      var live, stale :|
        && live in es && live.key != key && !Expired(live, c.ttlMs, now) && live !in after
        && stale in es && Expired(stale, c.ttlMs, now) && stale in after;
      LostBySet(c, key, value, now, live);
      var j :| 0 <= j < |es| && es[j] == stale;
    }
    if LastLiveOtherExpired(c, key, now) {
      var j :| 0 <= j < |es| - 1 && Expired(es[j], c.ttlMs, now);
      LostBySet(c, key, value, now, es[j]);
      LostBySet(c, key, value, now, es[|es| - 1]);
    }
  }

  /** So it is in every reachable cache; and a purge at the same moment rules it out. */
  lemma PurgingFirstKeepsLiveEntries<V>(maxSize: nat, ttlMs: nat, ops: seq<Op<V>>, key: string, value: V, now: int)
    requires maxSize >= 1
    ensures var c := Run(maxSize, ttlMs, ops);
            && (DropsLiveForExpired(c, key, value, now) <==> LastLiveOtherExpired(c, key, now))
            && !DropsLiveForExpired(AfterPurge(c, now), key, value, now)
  {
    var c := Run(maxSize, ttlMs, ops);
    EveryHistory(maxSize, ttlMs, ops);
    DropsLiveForExpiredExactly(c, key, value, now);
    SurvivorsThin(c.entries, c.ttlMs, now);
    ThinsKeepsDistinct(Survivors(c.entries, c.ttlMs, now), c.entries);
    DropsLiveForExpiredExactly(AfterPurge(c, now), key, value, now);
  }

  /** A history that meets the condition: unlike the stated policy, the live entry goes. */
  lemma EvictsLiveEntryBeforeExpired()
    ensures var ops := [Set("a", 1, 0), Set("b", 2, 100), Get("a", 100)];
            var c := Run(2, 100, ops);
            var live, stale := Entry("b", 2, 100), Entry("a", 1, 0);
            && c.entries == [stale, live]
            && Expired(stale, c.ttlMs, 101) && !Expired(live, c.ttlMs, 101)
            && stale in AfterSet(c, "c", 3, 101).entries && live !in AfterSet(c, "c", 3, 101).entries
  {
    var ops := [Set("a", 1, 0), Set("b", 2, 100), Get("a", 100)];
    assert ops[..2] == [Set("a", 1, 0), Set("b", 2, 100)] && ops[..2][..1] == [Set("a", 1, 0)] && ops[..1][..0] == [];
    var a, b := Entry("a", 1, 0), Entry("b", 2, 100);
    assert Run(2, 100, ops[..2][..1]).entries == [a];
    assert Without([a], "b") == [a];
    assert Run(2, 100, ops[..2]).entries == [b, a];
    assert [b, a][1..] == [a];
    assert Find([b, a], "a") == Some(a) && Without([b, a], "a") == [b];
    assert Run(2, 100, ops).entries == [a, b];
    assert Find([a, b], "c").None?;
    assert AfterSet(Run(2, 100, ops), "c", 3, 101).entries == [Entry("c", 3, 101), a];
  }

  /** After any history, an answered get returns the last value stored, and it has not expired. */
  lemma AnswersAreCurrent<V>(maxSize: nat, ttlMs: nat, ops: seq<Op<V>>, key: string, now: int)
    requires maxSize >= 1 && Answer(Run(maxSize, ttlMs, ops), key, now).Some?
    ensures var last := LastSet(ops, key);
            && last >= 0
            && Answer(Run(maxSize, ttlMs, ops), key, now) == Some(ops[last].value)
            && (ttlMs > 0 ==> now - ops[last].now <= ttlMs)
  {
    EveryHistory(maxSize, ttlMs, ops);
    var i := FindAt(Run(maxSize, ttlMs, ops).entries, key);
  }

  lemma {:induction false} FindWithout<V>(es: seq<Entry<V>>, key: string, other: string)
    ensures Find(Without(es, key), other) == if other == key then None else Find(es, other)
  {
    if es != [] {
      FindWithout(es[1..], key, other);
    }
  }

  lemma {:induction false} FindSurvivor<V>(es: seq<Entry<V>>, ttlMs: nat, now: int, key: string)
    requires DistinctKeys(es)
    ensures Find(Survivors(es, ttlMs, now), key)
         == if Find(es, key).Some? && Expired(Find(es, key).value, ttlMs, now) then None else Find(es, key)
  {
    if es != [] {
      FindSurvivor(es[1..], ttlMs, now, key);
      if Find(es[1..], key).Some? {
        var i := FindAt(es[1..], key);
        assert es[1..][i] == es[i + 1];
      }
    }
  }

  /** Reading and purging are invisible to later readers: they change no answer. */
  lemma ReadingAndPurgingChangeNoAnswer<V>(c: Cache<V>, key: string, now: int, other: string, later: int)
    requires DistinctKeys(c.entries) && now <= later
    ensures Answer(AfterGet(c, key, now), other, later) == Answer(c, other, later)
    ensures Answer(AfterPurge(c, now), other, later) == Answer(c, other, later)
  {
    FindWithout(c.entries, key, other);
    FindSurvivor(c.entries, c.ttlMs, now, other);
  }

  /** A stored value is served until it expires; a deleted key is not; other keys keep their answers. */
  lemma WritesAreRead<V>(c: Cache<V>, key: string, value: V, now: int, other: string, later: int)
    requires other != key
    ensures Answer(AfterSet(c, key, value, now), key, later)
         == if c.ttlMs > 0 && later - now > c.ttlMs then None else Some(value)
    ensures !EvictsFor(c, key) ==> Answer(AfterSet(c, key, value, now), other, later) == Answer(c, other, later)
    ensures Answer(AfterDelete(c, key), key, later).None?
    ensures Answer(AfterDelete(c, key), other, later) == Answer(c, other, later)
  {
    FindWithout(c.entries, key, other);
    FindWithout(c.entries, key, key);
  }

  /** A changed window or signer identity leaves nothing that could be served. */
  lemma InvalidationServesNothing<V>(c: Cache<V>, start: int, end: int, id: Option<string>, key: string, now: int)
    ensures ValidWindow(start, end) && c.window != Some(Window(start, end)) ==>
              Answer(AfterBeginWindow(c, start, end), key, now).None?
    ensures id != c.signerId ==> Answer(AfterSetSignerId(c, id), key, now).None?
  {
    assert Find<V>([], key).None?;
  }
}
