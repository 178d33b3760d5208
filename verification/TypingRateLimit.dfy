/**
 The bounded map behind the typing throttle of the DM relay: insertion ordered,
 swept from the front, capped in size. Every throttle decision is compared with
 that of a map that never forgets anything.
 */
module TypingRateLimit {
  import opened Outcomes

  /** TYPING_RATE_LIMIT_WINDOW_MS and TYPING_RATE_LIMIT_MAX_PAIRS. */
  const WINDOW_MS := 3000
  const MAX_PAIRS := 50_000

  datatype Entry = Entry(key: string, time: int)

  // ----- The map as a list ---------------------------------------------------

  function Lookup(entries: seq<Entry>, key: string): Option<int> {
    if entries == [] then None
    else if entries[0].key == key then Some(entries[0].time)
    else Lookup(entries[1..], key)
  }

  function Without(entries: seq<Entry>, key: string): seq<Entry> {
    if entries == [] then []
    else if entries[0].key == key then Without(entries[1..], key)
    else [entries[0]] + Without(entries[1..], key)
  }

  predicate Expired(entry: Entry, now: int, ttl: int) {
    now - entry.time > ttl
  }

  /** What the early-exit sweep leaves: it stops at the first entry that has not expired. */
  function Swept(entries: seq<Entry>, now: int, ttl: int): seq<Entry> {
    if entries != [] && Expired(entries[0], now, ttl) then Swept(entries[1..], now, ttl) else entries
  }

  /** What a full scan would leave. */
  function Unexpired(entries: seq<Entry>, now: int, ttl: int): seq<Entry> {
    if entries == [] then []
    else if Expired(entries[0], now, ttl) then Unexpired(entries[1..], now, ttl)
    else [entries[0]] + Unexpired(entries[1..], now, ttl)
  }

  /** The entries a touch finds once the sweep and its own delete are done. */
  function Others(entries: seq<Entry>, key: string, now: int, ttl: int): seq<Entry> {
    Without(Swept(entries, now, ttl), key)
  }

  function Touched(entries: seq<Entry>, key: string, now: int, ttl: int, cap: int): seq<Entry> {
    var others := Others(entries, key, now, ttl);
    (if |others| >= cap && others != [] then others[1..] else others) + [Entry(key, now)]
  }

  class TypingRateLimitMap {
    const ttlMs: int
    const maxEntries: int
    var entries: seq<Entry>

    constructor (ttlMs: int, maxEntries: int)
      ensures this.ttlMs == ttlMs && this.maxEntries == maxEntries && entries == []
    {
      this.ttlMs := ttlMs;
      this.maxEntries := maxEntries;
      entries := [];
    }

    method EvictExpired(now: int)
      modifies this
      ensures entries == Swept(old(entries), now, ttlMs)
      ensures TimeOrdered(old(entries)) ==> entries == Unexpired(old(entries), now, ttlMs)
      ensures TimeOrdered(old(entries)) ==> forall e :: e in entries <==> e in old(entries) && now - e.time <= ttlMs
    {
      while entries != [] && Expired(entries[0], now, ttlMs)
        invariant Swept(entries, now, ttlMs) == Swept(old(entries), now, ttlMs)
        decreases |entries|
      {
        entries := entries[1..];
      }
      if TimeOrdered(old(entries)) {
        SweepRemovesExactlyTheExpired(old(entries), now, ttlMs);
        forall e
          ensures e in entries <==> e in old(entries) && now - e.time <= ttlMs
        {
          UnexpiredMembers(old(entries), now, ttlMs, e);
        }
      }
    }

    method Get(key: string, now: int) returns (time: Option<int>)
      ensures time.Some? <==> Lookup(entries, key).Some? && now - Lookup(entries, key).value <= ttlMs
      ensures time.Some? ==> time == Lookup(entries, key)
      ensures forall i :: 0 <= i < |entries| && entries[i].key == key && DistinctKeys(entries) ==>
                time == if now - entries[i].time <= ttlMs then Some(entries[i].time) else None
      ensures (forall i :: 0 <= i < |entries| ==> entries[i].key != key) ==> time == None
    {
      LookupFinds(entries, key);
      var lastSent := Lookup(entries, key);
      if lastSent.None? || now - lastSent.value > ttlMs {
        return None;
      }
      return lastSent;
    }

    method Touch(key: string, now: int)
      modifies this
      ensures entries == Touched(old(entries), key, now, ttlMs, maxEntries)
    {
      EvictExpired(now);
      entries := Without(entries, key);
      if |entries| >= maxEntries {
        if entries != [] {
          entries := entries[1..];
        }
      }
      entries := entries + [Entry(key, now)];
    }

    /** The throttle of the typing handler: true when the notification goes out. */
    method AllowTyping(key: string, now: int) returns (allowed: bool)
      requires ttlMs == WINDOW_MS
      modifies this
      ensures allowed == Allows(old(entries), key, now)
      ensures DistinctKeys(old(entries)) ==>
                (!allowed <==> exists i :: 0 <= i < |old(entries)| &&
                                           old(entries)[i].key == key && now - old(entries)[i].time < 3000)
      ensures !allowed ==> entries == old(entries)
      ensures allowed ==> entries == Touched(old(entries), key, now, 3000, maxEntries)
      ensures entries == AfterRequest(old(entries), Request(key, now), maxEntries)
    {
      LookupFinds(entries, key);
      var lastSent := Get(key, now);
      if lastSent.Some? && now - lastSent.value < WINDOW_MS {
        return false;
      }
      Touch(key, now);
      return true;
    }
  }

  // ----- Order, sweep and size -----------------------------------------------

  predicate TimeOrdered(entries: seq<Entry>) {
    forall i, j :: 0 <= i < j < |entries| ==> entries[i].time <= entries[j].time
  }

  predicate DistinctKeys(entries: seq<Entry>) {
    forall i, j :: 0 <= i < j < |entries| ==> entries[i].key != entries[j].key
  }

  predicate NotAfter(entries: seq<Entry>, now: int) {
    forall i :: 0 <= i < |entries| ==> entries[i].time <= now
  }

  /** In a map whose order is time order, stopping early removes exactly the expired entries. */
  lemma {:induction false} SweepRemovesExactlyTheExpired(entries: seq<Entry>, now: int, ttl: int)
    requires TimeOrdered(entries)
    ensures Swept(entries, now, ttl) == Unexpired(entries, now, ttl)
  {
    if entries != [] {
      if Expired(entries[0], now, ttl) {
        SweepRemovesExactlyTheExpired(entries[1..], now, ttl);
      } else {
        AllUnexpired(entries, now, ttl);
      }
    }
  }

  lemma {:induction false} AllUnexpired(entries: seq<Entry>, now: int, ttl: int)
    requires forall i :: 0 <= i < |entries| ==> !Expired(entries[i], now, ttl)
    ensures Unexpired(entries, now, ttl) == entries
  {
    if entries != [] {
      AllUnexpired(entries[1..], now, ttl);
    }
  }

  lemma {:induction false} UnexpiredMembers(entries: seq<Entry>, now: int, ttl: int, e: Entry)
    ensures e in Unexpired(entries, now, ttl) <==> e in entries && now - e.time <= ttl
  {
    if entries != [] {
      UnexpiredMembers(entries[1..], now, ttl, e);
      assert entries == [entries[0]] + entries[1..];
    }
  }

  /** The invariant of the map at time `now`. */
  ghost predicate Valid(entries: seq<Entry>, now: int, cap: int) {
    && TimeOrdered(entries)
    && DistinctKeys(entries)
    && NotAfter(entries, now)
    && |entries| <= (if cap < 1 then 1 else cap)
  }

  /** `part` is a sublist of `entries`: order, distinctness and bounds carry over. */
  lemma {:induction false} SweptKeeps(entries: seq<Entry>, now: int, ttl: int)
    requires TimeOrdered(entries) && DistinctKeys(entries)
    ensures TimeOrdered(Swept(entries, now, ttl)) && DistinctKeys(Swept(entries, now, ttl))
    ensures |Swept(entries, now, ttl)| <= |entries|
    ensures forall e :: e in Swept(entries, now, ttl) ==> e in entries
  {
    if entries != [] && Expired(entries[0], now, ttl) {
      SweptKeeps(entries[1..], now, ttl);
    }
  }

  lemma {:induction false} WithoutMembers(entries: seq<Entry>, key: string, e: Entry)
    ensures e in Without(entries, key) <==> e in entries && e.key != key
  {
    if entries != [] {
      WithoutMembers(entries[1..], key, e);
      assert entries == [entries[0]] + entries[1..];
    }
  }

  lemma {:induction false} WithoutKeeps(entries: seq<Entry>, key: string)
    requires TimeOrdered(entries) && DistinctKeys(entries)
    ensures TimeOrdered(Without(entries, key)) && DistinctKeys(Without(entries, key))
    ensures |Without(entries, key)| <= |entries|
  {
    if entries != [] {
      WithoutKeeps(entries[1..], key);
      var rest := Without(entries[1..], key);
      forall i | 0 <= i < |rest|
        ensures entries[0].time <= rest[i].time && entries[0].key != rest[i].key
      {
        WithoutMembers(entries[1..], key, rest[i]);
        var j :| 0 <= j < |entries| - 1 && entries[1..][j] == rest[i];
        assert entries[j + 1] == rest[i];
      }
    }
  }

  lemma OthersKeep(entries: seq<Entry>, key: string, now: int, ttl: int)
    requires TimeOrdered(entries) && DistinctKeys(entries)
    ensures TimeOrdered(Others(entries, key, now, ttl)) && DistinctKeys(Others(entries, key, now, ttl))
    ensures |Others(entries, key, now, ttl)| <= |entries|
    ensures forall e :: e in Others(entries, key, now, ttl) <==>
              e in entries && e.key != key && now - e.time <= ttl
  {
    SweptKeeps(entries, now, ttl);
    WithoutKeeps(Swept(entries, now, ttl), key);
    SweepRemovesExactlyTheExpired(entries, now, ttl);
    forall e
      ensures e in Others(entries, key, now, ttl) <==> e in entries && e.key != key && now - e.time <= ttl
    {
      WithoutMembers(Swept(entries, now, ttl), key, e);
      UnexpiredMembers(entries, now, ttl, e);
    }
  }

  /**
   A touch drops what has expired and the old entry of its key. If the cap is reached then, the oldest of the
   others goes too. Its own entry comes last, at this time.
   */
  lemma TouchExactly(entries: seq<Entry>, key: string, now: int, ttl: int, cap: int) returns (others: seq<Entry>)
    requires TimeOrdered(entries) && DistinctKeys(entries)
    ensures TimeOrdered(others) && DistinctKeys(others)
    ensures forall e :: e in others <==> e in entries && e.key != key && now - e.time <= ttl
    ensures |others| < cap || others == [] ==> Touched(entries, key, now, ttl, cap) == others + [Entry(key, now)]
    ensures |others| >= cap && others != [] ==>
              Touched(entries, key, now, ttl, cap) == others[1..] + [Entry(key, now)]
  {
    others := Others(entries, key, now, ttl);
    OthersKeep(entries, key, now, ttl);
  }

  /** With a clock that does not go back, a touch keeps time order and the cap. */
  lemma TouchKeepsValid(entries: seq<Entry>, key: string, before: int, now: int, ttl: int, cap: int)
    requires Valid(entries, before, cap) && before <= now
    ensures Valid(Touched(entries, key, now, ttl, cap), now, cap)
  {
    var others := Others(entries, key, now, ttl);
    OthersKeep(entries, key, now, ttl);
    var kept := if |others| >= cap && others != [] then others[1..] else others;
    forall i | 0 <= i < |kept|
      ensures kept[i].time <= now && kept[i].key != key
    {
      assert kept[i] in others;
      assert kept[i] in entries;
    }
  }

  // ----- Throttle decisions --------------------------------------------------

  datatype Request = Request(key: string, now: int)

  /** The decision, and the map after it. */
  function Allows(entries: seq<Entry>, key: string, now: int): bool {
    var lastSent := Lookup(entries, key);
    !(lastSent.Some? && now - lastSent.value < WINDOW_MS)
  }

  function AfterRequest(entries: seq<Entry>, request: Request, cap: int): seq<Entry> {
    if Allows(entries, request.key, request.now) then
      Touched(entries, request.key, request.now, WINDOW_MS, cap)
    else
      entries
  }

  /** The same throttle over a map that never drops an entry. */
  function AllowsUnbounded(sent: map<string, int>, request: Request): bool {
    !(request.key in sent && request.now - sent[request.key] < WINDOW_MS)
  }

  function AfterUnbounded(sent: map<string, int>, request: Request): map<string, int> {
    if AllowsUnbounded(sent, request) then sent[request.key := request.now] else sent
  }

  /** At `now` and later the two maps decide alike. */
  ghost predicate Coupled(entries: seq<Entry>, sent: map<string, int>, now: int) {
    && (forall i :: 0 <= i < |entries| ==> entries[i].key in sent && sent[entries[i].key] == entries[i].time)
    && (forall k :: k in sent && now - sent[k] < WINDOW_MS ==> Entry(k, sent[k]) in entries)
  }

  /** The touch of this request drops, for the cap alone, an entry that still throttles. */
  predicate EvictsLiveEntry(entries: seq<Entry>, request: Request, cap: int) {
    var others := Others(entries, request.key, request.now, WINDOW_MS);
    && Allows(entries, request.key, request.now)
    && |others| >= cap
    && others != []
    && request.now - others[0].time < WINDOW_MS
  }

  lemma {:induction false} LookupFinds(entries: seq<Entry>, key: string)
    ensures Lookup(entries, key).Some? ==> Entry(key, Lookup(entries, key).value) in entries
    ensures Lookup(entries, key).None? ==> forall i :: 0 <= i < |entries| ==> entries[i].key != key
  {
    if entries != [] && entries[0].key != key {
      LookupFinds(entries[1..], key);
      assert entries == [entries[0]] + entries[1..];
    }
  }

  /** Coupled maps give the same answer. */
  lemma CoupledDecideAlike(entries: seq<Entry>, sent: map<string, int>, before: int, request: Request)
    requires Coupled(entries, sent, before) && before <= request.now
    ensures Allows(entries, request.key, request.now) == AllowsUnbounded(sent, request)
  {
    LookupFinds(entries, request.key);
  }

  /** What a touch keeps of the other entries. */
  lemma TouchedMembers(entries: seq<Entry>, request: Request, cap: int, e: Entry)
    requires TimeOrdered(entries) && DistinctKeys(entries)
    ensures var others := Others(entries, request.key, request.now, WINDOW_MS);
            e in Touched(entries, request.key, request.now, WINDOW_MS, cap) <==>
            || e == Entry(request.key, request.now)
            || (e in others && !(|others| >= cap && others != [] && e == others[0]))
  {
    var others := Others(entries, request.key, request.now, WINDOW_MS);
    OthersKeep(entries, request.key, request.now, WINDOW_MS);
    if others != [] {
      assert others == [others[0]] + others[1..];
      assert others[0] !in others[1..];
    }
  }

  /** A step keeps the maps coupled exactly when it does not evict a live entry. */
  lemma StepKeepsCoupling(entries: seq<Entry>, sent: map<string, int>, before: int, request: Request, cap: int)
    requires Valid(entries, before, cap) && Coupled(entries, sent, before) && before <= request.now
    ensures Coupled(AfterRequest(entries, request, cap), AfterUnbounded(sent, request), request.now) <==>
            !EvictsLiveEntry(entries, request, cap)
  {
    CoupledDecideAlike(entries, sent, before, request);
    if Allows(entries, request.key, request.now) {
      TouchCouples(entries, sent, before, request, cap);
    }
  }

  lemma TouchCouples(entries: seq<Entry>, sent: map<string, int>, before: int, request: Request, cap: int)
    requires Valid(entries, before, cap) && Coupled(entries, sent, before) && before <= request.now
    requires Allows(entries, request.key, request.now) && AllowsUnbounded(sent, request)
    ensures Coupled(AfterRequest(entries, request, cap), AfterUnbounded(sent, request), request.now) <==>
            !EvictsLiveEntry(entries, request, cap)
  {
    var next := AfterRequest(entries, request, cap);
    var sent' := AfterUnbounded(sent, request);
    var others := Others(entries, request.key, request.now, WINDOW_MS);
    OthersKeep(entries, request.key, request.now, WINDOW_MS);
    forall i | 0 <= i < |next|
      ensures next[i].key in sent' && sent'[next[i].key] == next[i].time
    {
      TouchedMembers(entries, request, cap, next[i]);
      assert next[i] in next;
      if next[i] != Entry(request.key, request.now) {
        assert next[i] in entries;
      }
    }
    if EvictsLiveEntry(entries, request, cap) {
      TouchedMembers(entries, request, cap, others[0]);
      assert others[0] in entries && others[0].key != request.key;
      assert others[0] == Entry(others[0].key, sent'[others[0].key]);
    } else {
      forall k | k in sent' && request.now - sent'[k] < WINDOW_MS
        ensures Entry(k, sent'[k]) in next
      {
        TouchedMembers(entries, request, cap, Entry(k, sent'[k]));
      }
    }
  }

  // ----- Runs ----------------------------------------------------------------

  predicate ClockNeverGoesBack(requests: seq<Request>, start: int) {
    && (forall i :: 0 <= i < |requests| ==> start <= requests[i].now)
    && (forall i, j :: 0 <= i < j < |requests| ==> requests[i].now <= requests[j].now)
  }

  function Decisions(entries: seq<Entry>, requests: seq<Request>, cap: int): seq<bool>
    decreases |requests|
  {
    if requests == [] then []
    else
      [Allows(entries, requests[0].key, requests[0].now)]
      + Decisions(AfterRequest(entries, requests[0], cap), requests[1..], cap)
  }

  function UnboundedDecisions(sent: map<string, int>, requests: seq<Request>): seq<bool>
    decreases |requests|
  {
    if requests == [] then []
    else [AllowsUnbounded(sent, requests[0])] + UnboundedDecisions(AfterUnbounded(sent, requests[0]), requests[1..])
  }

  function AfterRequests(entries: seq<Entry>, requests: seq<Request>, cap: int): seq<Entry>
    decreases |requests|
  {
    if requests == [] then entries else AfterRequests(AfterRequest(entries, requests[0], cap), requests[1..], cap)
  }

  predicate NeverEvictsLive(entries: seq<Entry>, requests: seq<Request>, cap: int)
    decreases |requests|
  {
    requests != [] ==>
      && !EvictsLiveEntry(entries, requests[0], cap)
      && NeverEvictsLive(AfterRequest(entries, requests[0], cap), requests[1..], cap)
  }

  lemma {:induction false} RunAgrees(entries: seq<Entry>, sent: map<string, int>, start: int, requests: seq<Request>,
                                     cap: int)
    requires Valid(entries, start, cap) && Coupled(entries, sent, start)
    requires ClockNeverGoesBack(requests, start) && NeverEvictsLive(entries, requests, cap)
    ensures Decisions(entries, requests, cap) == UnboundedDecisions(sent, requests)
    decreases |requests|
  {
    if requests != [] {
      var request := requests[0];
      CoupledDecideAlike(entries, sent, start, request);
      StepKeepsCoupling(entries, sent, start, request, cap);
      RequestKeepsValid(entries, start, request, cap);
      RunAgrees(AfterRequest(entries, request, cap), AfterUnbounded(sent, request), request.now, requests[1..], cap);
    }
  }

  lemma RequestKeepsValid(entries: seq<Entry>, before: int, request: Request, cap: int)
    requires Valid(entries, before, cap) && before <= request.now
    ensures Valid(AfterRequest(entries, request, cap), request.now, cap)
  {
    if Allows(entries, request.key, request.now) {
      TouchKeepsValid(entries, request.key, before, request.now, WINDOW_MS, cap);
    }
  }

  /** Over every run with a clock that never goes back, the map stays in time order and within its cap. */
  lemma {:induction false} RunKeepsValid(entries: seq<Entry>, start: int, requests: seq<Request>, cap: int)
    requires Valid(entries, start, cap) && ClockNeverGoesBack(requests, start)
    ensures TimeOrdered(AfterRequests(entries, requests, cap)) && DistinctKeys(AfterRequests(entries, requests, cap))
    ensures |AfterRequests(entries, requests, cap)| <= (if cap < 1 then 1 else cap)
    decreases |requests|
  {
    if requests != [] {
      RequestKeepsValid(entries, start, requests[0], cap);
      RunKeepsValid(AfterRequest(entries, requests[0], cap), requests[0].now, requests[1..], cap);
    }
  }

  /** From the empty map, as long as the cap evicts no live entry, every decision is that of the unbounded map. */
  lemma ThrottleMatchesTheUnboundedMap(requests: seq<Request>, start: int, cap: int)
    requires ClockNeverGoesBack(requests, start) && NeverEvictsLive([], requests, cap)
    ensures Decisions([], requests, cap) == UnboundedDecisions(map[], requests)
  {
    RunAgrees([], map[], start, requests, cap);
  }

  /** The condition is exact: right after a live entry is evicted, its pair is let through too early. */
  lemma LiveEvictionShows(entries: seq<Entry>, sent: map<string, int>, before: int, request: Request, cap: int)
    requires Valid(entries, before, cap) && Coupled(entries, sent, before) && before <= request.now
    requires EvictsLiveEntry(entries, request, cap)
    ensures var victim := Others(entries, request.key, request.now, WINDOW_MS)[0].key;
            var next := [request, Request(victim, request.now)];
            Decisions(entries, next, cap) == [true, true] && UnboundedDecisions(sent, next) == [true, false]
  {
    var others := Others(entries, request.key, request.now, WINDOW_MS);
    var victim := others[0];
    var again := Request(victim.key, request.now);
    var after := AfterRequest(entries, request, cap);
    CoupledDecideAlike(entries, sent, before, request);
    OthersKeep(entries, request.key, request.now, WINDOW_MS);
    assert victim in entries;
    LookupFinds(after, victim.key);
    if Lookup(after, victim.key).Some? {
      var e := Entry(victim.key, Lookup(after, victim.key).value);
      TouchedMembers(entries, request, cap, e);
      OthersHaveDistinctKeys(others, e);
    }
    assert [request, again][1..] == [again] && [again][1..] == [];
    assert Decisions(after, [again], cap) == [true];
    assert UnboundedDecisions(AfterUnbounded(sent, request), [again]) == [false];
  }

  lemma OthersHaveDistinctKeys(others: seq<Entry>, e: Entry)
    requires DistinctKeys(others) && others != [] && e in others && e.key == others[0].key
    ensures e == others[0]
  {
  }

  // ----- A bound that rules live evictions out -------------------------------

  ghost predicate KeysIn(entries: seq<Entry>, keys: set<string>) {
    forall i :: 0 <= i < |entries| ==> entries[i].key in keys
  }

  lemma {:induction false} NoMoreEntriesThanKeys(entries: seq<Entry>, keys: set<string>)
    requires DistinctKeys(entries) && KeysIn(entries, keys)
    ensures |entries| <= |keys|
  {
    if entries != [] {
      NoMoreEntriesThanKeys(entries[1..], keys - {entries[0].key});
    }
  }

  lemma {:induction false} FewPairsFrom(entries: seq<Entry>, start: int, requests: seq<Request>, keys: set<string>,
                                        cap: int)
    requires Valid(entries, start, cap) && ClockNeverGoesBack(requests, start)
    requires KeysIn(entries, keys) && |keys| <= cap
    requires forall i :: 0 <= i < |requests| ==> requests[i].key in keys
    ensures NeverEvictsLive(entries, requests, cap)
    decreases |requests|
  {
    if requests != [] {
      var request := requests[0];
      var others := Others(entries, request.key, request.now, WINDOW_MS);
      var next := AfterRequest(entries, request, cap);
      OthersKeep(entries, request.key, request.now, WINDOW_MS);
      forall i | 0 <= i < |others|
        ensures others[i].key in keys - {request.key}
      {
        assert others[i] in others;
        assert others[i] in entries;
      }
      NoMoreEntriesThanKeys(others, keys - {request.key});
      forall i | 0 <= i < |next|
        ensures next[i].key in keys
      {
        if Allows(entries, request.key, request.now) {
          TouchedMembers(entries, request, cap, next[i]);
          assert next[i] in next;
        }
      }
      RequestKeepsValid(entries, start, request, cap);
      FewPairsFrom(next, request.now, requests[1..], keys, cap);
    }
  }

  /** With the relay's cap, a run over at most that many pairs throttles as if the map were unbounded. */
  lemma {:induction false} FewPairsMatchTheUnboundedMap(requests: seq<Request>, start: int, pairs: set<string>)
    requires ClockNeverGoesBack(requests, start)
    requires |pairs| <= MAX_PAIRS && forall i :: 0 <= i < |requests| ==> requests[i].key in pairs
    ensures Decisions([], requests, MAX_PAIRS) == UnboundedDecisions(map[], requests)
  {
    FewPairsFrom([], start, requests, pairs, MAX_PAIRS);
    ThrottleMatchesTheUnboundedMap(requests, start, MAX_PAIRS);
  }
}
