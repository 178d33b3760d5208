/**
 The oracle's window scheduler: each tick reports one window of ledgers, retrying
 a window that was not fully attested, and shares the attestation cache.

 What the database and the chain answer is an input: one `Attempt` for every
 time a window is run.
 */
module WindowScheduler {
  import opened Outcomes
  import opened CacheModel
  import Heap = AttestationCache

  const MAX_RETRIES: nat := 3

  datatype Attestation = Attestation(creator: string, window: Window, txHash: string)

  /** What became of one active creator. */
  datatype Outcome =
    | InvalidAddress
    | SubmissionFailed
    | Submitted(txHash: string, now: int)

  datatype Creator = Creator(address: string, outcome: Outcome)

  datatype Attempt = FetchFailed | Fetched(creators: seq<Creator>)

  datatype Scheduler = Scheduler(lastWindowEnd: int, cache: Cache<Attestation>)

  datatype TickResult = Skipped | Attested(window: Window) | Failed

  datatype Event =
    | Tick(ledger: int, attempts: seq<Attempt>)
    | CacheRead(key: string, now: int)
    | CacheSweep(now: int)
    | KeyRotation(id: Option<string>)
    | Restart

  // ---------------------------------------------------------------------
  // One window
  // ---------------------------------------------------------------------

  function AfterCreator(c: Cache<Attestation>, w: Window, creator: Creator): Cache<Attestation> {
    match creator.outcome
    case Submitted(txHash, now) => AfterSet(c, creator.address, Attestation(creator.address, w, txHash), now)
    case _ => c
  }

  function AfterCreators(c: Cache<Attestation>, w: Window, creators: seq<Creator>): Cache<Attestation>
    decreases |creators|
  {
    if creators == [] then c
    else AfterCreator(AfterCreators(c, w, creators[..|creators| - 1]), w, creators[|creators| - 1])
  }

  /** A window counts as processed only if no creator's submission failed. */
  predicate Complete(a: Attempt) {
    a.Fetched? && forall i :: 0 <= i < |a.creators| ==> !a.creators[i].outcome.SubmissionFailed?
  }

  function AfterAttempt(c: Cache<Attestation>, w: Window, a: Attempt): Cache<Attestation> {
    var begun := AfterBeginWindow(c, w.start, w.end);
    if !ValidWindow(w.start, w.end) || a.FetchFailed? then begun else AfterCreators(begun, w, a.creators)
  }

  /** Position of the first attempt that completes the window. */
  function FirstComplete(w: Window, attempts: seq<Attempt>): (r: Option<nat>)
    ensures r.Some? ==> r.value < |attempts| && Complete(attempts[r.value]) && ValidWindow(w.start, w.end)
    ensures r.None? && ValidWindow(w.start, w.end) ==> forall i :: 0 <= i < |attempts| ==> !Complete(attempts[i])
    decreases |attempts|
  {
    if attempts == [] then None
    else
      var earlier := FirstComplete(w, attempts[..|attempts| - 1]);
      if earlier.Some? then earlier
      else if ValidWindow(w.start, w.end) && Complete(attempts[|attempts| - 1]) then Some(|attempts| - 1)
      else None
  }

  function AfterAttempts(c: Cache<Attestation>, w: Window, attempts: seq<Attempt>): Cache<Attestation>
    decreases |attempts|
  {
    if attempts == [] then c
    else AfterAttempt(AfterAttempts(c, w, attempts[..|attempts| - 1]), w, attempts[|attempts| - 1])
  }

  // ---------------------------------------------------------------------
  // One tick
  // ---------------------------------------------------------------------

  /** The window a tick at `ledger` covers: the ledgers since the last processed window. */
  function NextWindow(lastWindowEnd: int, windowLedgers: int, ledger: int): Window {
    Window(if lastWindowEnd == 0 then ledger - windowLedgers else lastWindowEnd + 1, ledger)
  }

  function ResultOf(s: Scheduler, windowLedgers: int, ledger: int, attempts: seq<Attempt>): TickResult {
    var w := NextWindow(s.lastWindowEnd, windowLedgers, ledger);
    if w.end <= w.start then Skipped
    else if FirstComplete(w, attempts).Some? then Attested(w)
    else Failed
  }

  function AfterTick(s: Scheduler, windowLedgers: int, ledger: int, attempts: seq<Attempt>): Scheduler {
    var w := NextWindow(s.lastWindowEnd, windowLedgers, ledger);
    match ResultOf(s, windowLedgers, ledger, attempts)
    case Skipped => s
    case Attested(_) =>
      var used := FirstComplete(w, attempts).value + 1;
      Scheduler(w.end, AfterAttempts(s.cache, w, attempts[..used]))
    case Failed => s.(cache := AfterAttempts(s.cache, w, attempts))
  }

  // ---------------------------------------------------------------------
  // Whole runs
  // ---------------------------------------------------------------------

  /** A restart of the process forgets the last window and the cache. */
  function AfterEvent(s: Scheduler, windowLedgers: int, e: Event): Scheduler {
    match e
    case Tick(ledger, attempts) => AfterTick(s, windowLedgers, ledger, attempts)
    case CacheRead(key, now) => s.(cache := AfterGet(s.cache, key, now))
    case CacheSweep(now) => s.(cache := AfterPurge(s.cache, now))
    case KeyRotation(id) => s.(cache := AfterSetSignerId(s.cache, id))
    case Restart => Scheduler(0, Empty(s.cache.maxSize, s.cache.ttlMs))
  }

  function Run(windowLedgers: int, maxSize: nat, ttlMs: nat, events: seq<Event>): Scheduler
    decreases |events|
  {
    if events == [] then Scheduler(0, Empty(maxSize, ttlMs))
    else AfterEvent(Run(windowLedgers, maxSize, ttlMs, events[..|events| - 1]), windowLedgers, events[|events| - 1])
  }

  /** The windows processed during a run, in order. */
  function Processed(windowLedgers: int, maxSize: nat, ttlMs: nat, events: seq<Event>): seq<Window>
    decreases |events|
  {
    if events == [] then []
    else
      var before, e := events[..|events| - 1], events[|events| - 1];
      var earlier := Processed(windowLedgers, maxSize, ttlMs, before);
      if !e.Tick? then earlier
      else
        match ResultOf(Run(windowLedgers, maxSize, ttlMs, before), windowLedgers, e.ledger, e.attempts)
        case Attested(w) => earlier + [w]
        case _ => earlier
  }

  /** Consecutive windows, each starting one ledger after the one before ended. */
  ghost predicate Tiles(ws: seq<Window>) {
    && (forall i :: 0 <= i < |ws| ==> ValidWindow(ws[i].start, ws[i].end))
    && (forall i {:trigger ws[i].end} :: 0 <= i < |ws| - 1 ==> ws[i + 1].start == ws[i].end + 1)
  }

  predicate Covers(w: Window, ledger: int) {
    w.start <= ledger <= w.end
  }

  /** A ledger up to the end of window `n` lies in exactly one of the windows up to `n`. */
  lemma {:induction false} TilesCoverOnce(ws: seq<Window>, n: nat, ledger: int) returns (at: nat)
    requires Tiles(ws) && n < |ws| && ws[0].start <= ledger <= ws[n].end
    ensures at <= n && Covers(ws[at], ledger)
    ensures forall i :: 0 <= i <= n && Covers(ws[i], ledger) ==> i == at
    decreases n
  {
    TilesAscend(ws, n);
    if ledger >= ws[n].start {
      at := n;
    } else {
      assert ws[n - 1].end == ws[n].start - 1;
      at := TilesCoverOnce(ws, n - 1, ledger);
    }
  }

  lemma {:induction false} TilesAscend(ws: seq<Window>, n: nat)
    requires Tiles(ws) && n < |ws|
    ensures forall i :: 0 <= i < n ==> ws[i].end < ws[n].start
    decreases n
  {
    if n > 0 {
      TilesAscend(ws, n - 1);
      assert ws[n - 1].end == ws[n].start - 1;
    }
  }

  lemma TilesAppend(ws: seq<Window>, w: Window)
    requires Tiles(ws) && ValidWindow(w.start, w.end)
    requires ws != [] ==> w.start == ws[|ws| - 1].end + 1
    ensures Tiles(ws + [w])
  {
  }

  /** The tick that processes a window. */
  predicate Processes(s: Scheduler, windowLedgers: int, e: Event) {
    e.Tick? && ResultOf(s, windowLedgers, e.ledger, e.attempts).Attested?
  }

  /** A processed window starts one ledger after the last one, or at a fixed distance after a restart. */
  lemma EventMovesOneWindow(s: Scheduler, windowLedgers: int, e: Event)
    ensures !Processes(s, windowLedgers, e) && !e.Restart? ==>
              AfterEvent(s, windowLedgers, e).lastWindowEnd == s.lastWindowEnd
    ensures e.Restart? ==> AfterEvent(s, windowLedgers, e).lastWindowEnd == 0
    ensures Processes(s, windowLedgers, e) ==>
              var w := ResultOf(s, windowLedgers, e.ledger, e.attempts).window;
              && ValidWindow(w.start, w.end) && w.end == e.ledger
              && AfterEvent(s, windowLedgers, e).lastWindowEnd == w.end
              && w.start == if s.lastWindowEnd != 0 then s.lastWindowEnd + 1 else e.ledger - windowLedgers
  {
  }

  /**
   Event `n` leaves no seam: if it processes the first window since a restart, that window starts right
   after the last one processed before.
   */
  ghost predicate JoinsAt(windowLedgers: int, maxSize: nat, ttlMs: nat, events: seq<Event>, n: nat)
    requires n < |events|
  {
    var s, ws := Run(windowLedgers, maxSize, ttlMs, events[..n]), Processed(windowLedgers, maxSize, ttlMs, events[..n]);
    Processes(s, windowLedgers, events[n]) && s.lastWindowEnd == 0 && ws != [] ==>
      events[n].ledger - windowLedgers == ws[|ws| - 1].end + 1
  }

  ghost predicate JoinsAlways(windowLedgers: int, maxSize: nat, ttlMs: nat, events: seq<Event>) {
    forall n :: 0 <= n < |events| ==> JoinsAt(windowLedgers, maxSize, ttlMs, events, n)
  }

  lemma JoinsOnce(windowLedgers: int, maxSize: nat, ttlMs: nat, events: seq<Event>)
    requires events != []
    ensures JoinsAlways(windowLedgers, maxSize, ttlMs, events) <==>
            && JoinsAlways(windowLedgers, maxSize, ttlMs, events[..|events| - 1])
            && JoinsAt(windowLedgers, maxSize, ttlMs, events, |events| - 1)
  {
    var before := events[..|events| - 1];
    forall n | 0 <= n < |before|
      ensures JoinsAt(windowLedgers, maxSize, ttlMs, events, n) <==> JoinsAt(windowLedgers, maxSize, ttlMs, before, n)
    {
      assert events[..n] == before[..n];
    }
  }

  lemma LastOfTiles(ws: seq<Window>, w: Window)
    requires ValidWindow(w.start, w.end)
    ensures Tiles(ws + [w]) <==> Tiles(ws) && (ws != [] ==> w.start == ws[|ws| - 1].end + 1)
  {
    var more := ws + [w];
    assert more[..|ws|] == ws;
    if Tiles(more) {
      assert forall i :: 0 <= i < |ws| ==> more[i] == ws[i];
      assert Tiles(ws);
      if ws != [] {
        assert more[|ws| - 1].end == ws[|ws| - 1].end;
      }
    } else if Tiles(ws) && (ws != [] ==> w.start == ws[|ws| - 1].end + 1) {
      TilesAppend(ws, w);
    }
  }

  /** What the scheduler knows of the last window, unless it was restarted since. */
  lemma {:induction false} LastWindowIsKnown(windowLedgers: int, maxSize: nat, ttlMs: nat, events: seq<Event>)
    ensures var end, ws := Run(windowLedgers, maxSize, ttlMs, events).lastWindowEnd,
                           Processed(windowLedgers, maxSize, ttlMs, events);
            end != 0 ==> ws != [] && end == ws[|ws| - 1].end
    decreases |events|
  {
    if events != [] {
      var before, e := events[..|events| - 1], events[|events| - 1];
      LastWindowIsKnown(windowLedgers, maxSize, ttlMs, before);
      EventMovesOneWindow(Run(windowLedgers, maxSize, ttlMs, before), windowLedgers, e);
    }
  }

  /**
   Whatever fails and is retried, and however often the oracle restarts: the processed windows are
   consecutive if and only if each first window after a restart happens to join on to the last one.
   */
  lemma {:induction false} ProcessedWindowsTileExactly(windowLedgers: int, maxSize: nat, ttlMs: nat, events: seq<Event>)
    ensures Tiles(Processed(windowLedgers, maxSize, ttlMs, events)) <==>
            JoinsAlways(windowLedgers, maxSize, ttlMs, events)
    decreases |events|
  {
    hide Run, Tiles, JoinsAlways;
    if events != [] {
      var before, e := events[..|events| - 1], events[|events| - 1];
      var s, ws := Run(windowLedgers, maxSize, ttlMs, before), Processed(windowLedgers, maxSize, ttlMs, before);
      ProcessedWindowsTileExactly(windowLedgers, maxSize, ttlMs, before);
      JoinsOnce(windowLedgers, maxSize, ttlMs, events);
      LastWindowIsKnown(windowLedgers, maxSize, ttlMs, before);
      EventMovesOneWindow(s, windowLedgers, e);
      if Processes(s, windowLedgers, e) {
        LastOfTiles(ws, ResultOf(s, windowLedgers, e.ledger, e.attempts).window);
      }
    } else {
      NothingJoins(windowLedgers, maxSize, ttlMs);
    }
  }

  lemma NothingJoins(windowLedgers: int, maxSize: nat, ttlMs: nat)
    ensures Tiles([]) && JoinsAlways(windowLedgers, maxSize, ttlMs, [])
  {
  }

  /** Without a restart they always are. */
  lemma {:induction false} ProcessedWindowsTile(windowLedgers: int, maxSize: nat, ttlMs: nat, events: seq<Event>)
    requires forall n :: 0 <= n < |events| ==> !events[n].Restart?
    ensures var ws := Processed(windowLedgers, maxSize, ttlMs, events);
            && Tiles(ws)
            && Run(windowLedgers, maxSize, ttlMs, events).lastWindowEnd == if ws == [] then 0 else ws[|ws| - 1].end
    decreases |events|
  {
    if events != [] {
      var before, e := events[..|events| - 1], events[|events| - 1];
      var s, ws := Run(windowLedgers, maxSize, ttlMs, before), Processed(windowLedgers, maxSize, ttlMs, before);
      ProcessedWindowsTile(windowLedgers, maxSize, ttlMs, before);
      EventMovesOneWindow(s, windowLedgers, e);
      if Processes(s, windowLedgers, e) {
        TilesAppend(ws, ResultOf(s, windowLedgers, e.ledger, e.attempts).window);
      }
    }
  }

  // ---------------------------------------------------------------------
  // What was attested
  // ---------------------------------------------------------------------

  /** The attempt read its creators, and no submission for one of them failed. */
  ghost predicate NobodyMissed(a: Attempt) {
    a.Fetched? && forall i :: 0 <= i < |a.creators| ==> a.creators[i].outcome != SubmissionFailed
  }

  /** Attempt `k` is the first of the tick that missed nobody. */
  ghost predicate FirstToMissNobody(attempts: seq<Attempt>, k: nat) {
    k < |attempts| && NobodyMissed(attempts[k]) && forall j :: 0 <= j < k ==> !NobodyMissed(attempts[j])
  }

  lemma {:induction false} FirstCompleteExactly(w: Window, attempts: seq<Attempt>)
    requires ValidWindow(w.start, w.end)
    ensures FirstComplete(w, attempts).Some? ==> FirstToMissNobody(attempts, FirstComplete(w, attempts).value)
    ensures FirstComplete(w, attempts).None? ==> forall j :: 0 <= j < |attempts| ==> !NobodyMissed(attempts[j])
    decreases |attempts|
  {
    if attempts != [] {
      FirstCompleteExactly(w, attempts[..|attempts| - 1]);
    }
  }

  /**
   A tick moves the last window on exactly when there are ledgers to cover and an attempt misses nobody;
   then the window is all of them.
   */
  lemma TickProcessesExactly(s: Scheduler, windowLedgers: int, e: Event)
    requires e.Tick?
    ensures var start := if s.lastWindowEnd == 0 then e.ledger - windowLedgers else s.lastWindowEnd + 1;
            && (Processes(s, windowLedgers, e) <==>
                  0 < start < e.ledger && exists k: nat :: FirstToMissNobody(e.attempts, k))
            && (Processes(s, windowLedgers, e) ==>
                  && ResultOf(s, windowLedgers, e.ledger, e.attempts) == Attested(Window(start, e.ledger))
                  && AfterEvent(s, windowLedgers, e).lastWindowEnd == e.ledger)
            && (!Processes(s, windowLedgers, e) ==>
                  AfterEvent(s, windowLedgers, e).lastWindowEnd == s.lastWindowEnd)
  {
    hide NobodyMissed;
    var w := NextWindow(s.lastWindowEnd, windowLedgers, e.ledger);
    if ValidWindow(w.start, w.end) {
      FirstCompleteExactly(w, e.attempts);
    }
  }

  /** Attempts are made until one misses nobody, and then no more. */
  lemma TickStopsExactly(s: Scheduler, windowLedgers: int, ledger: int, attempts: seq<Attempt>)
    ensures var start := if s.lastWindowEnd == 0 then ledger - windowLedgers else s.lastWindowEnd + 1;
            var after := AfterTick(s, windowLedgers, ledger, attempts).cache;
            && (ledger <= start ==> after == s.cache)
            && (forall k: nat :: 0 < start < ledger && FirstToMissNobody(attempts, k) ==>
                  after == AfterAttempts(s.cache, Window(start, ledger), attempts[..k + 1]))
            && (start < ledger && !(0 < start && exists k: nat :: FirstToMissNobody(attempts, k)) ==>
                  after == AfterAttempts(s.cache, Window(start, ledger), attempts))
  {
    hide NobodyMissed, AfterAttempts;
    var w := NextWindow(s.lastWindowEnd, windowLedgers, ledger);
    if ValidWindow(w.start, w.end) {
      FirstCompleteExactly(w, attempts);
    }
  }

  /** Event `n` is the tick whose window is `w`; one of its attempts missed nobody. */
  ghost predicate AttestedAt(events: seq<Event>, n: int, w: Window) {
    && 0 <= n < |events| && events[n].Tick? && w.end == events[n].ledger
    && exists k: nat :: FirstToMissNobody(events[n].attempts, k)
  }

  /** In every run, each processed window was attested for everybody in it, by its tick. */
  lemma {:induction false} EveryWindowMissedNobody(windowLedgers: int, maxSize: nat, ttlMs: nat, events: seq<Event>,
                                                   i: nat)
    requires i < |Processed(windowLedgers, maxSize, ttlMs, events)|
    ensures exists n :: AttestedAt(events, n, Processed(windowLedgers, maxSize, ttlMs, events)[i])
    decreases |events|
  {
    hide FirstToMissNobody, Run;
    if events != [] {
      var before, e := events[..|events| - 1], events[|events| - 1];
      var s, ws := Run(windowLedgers, maxSize, ttlMs, before), Processed(windowLedgers, maxSize, ttlMs, before);
      if i < |ws| {
        EveryWindowMissedNobody(windowLedgers, maxSize, ttlMs, before, i);
        var n :| AttestedAt(before, n, ws[i]);
        assert events[n] == before[n] && Processed(windowLedgers, maxSize, ttlMs, events)[i] == ws[i];
        var k: nat :| FirstToMissNobody(before[n].attempts, k);
        assert FirstToMissNobody(events[n].attempts, k);
        assert AttestedAt(events, n, ws[i]);
      } else {
        TickProcessesExactly(s, windowLedgers, e);
        assert AttestedAt(events, |events| - 1, Processed(windowLedgers, maxSize, ttlMs, events)[i]);
      }
    }
  }

  // ---------------------------------------------------------------------
  // Which ledgers are covered
  // ---------------------------------------------------------------------

  ghost predicate CoveredOnce(ws: seq<Window>, ledger: int) {
    exists at :: && 0 <= at < |ws| && Covers(ws[at], ledger)
                 && forall i :: 0 <= i < |ws| && Covers(ws[i], ledger) ==> i == at
  }

  /** No ledger between the first and the last window is skipped or covered twice. */
  ghost predicate SpanIsCoveredOnce(ws: seq<Window>) {
    forall ledger :: |ws| > 0 && ws[0].start <= ledger <= ws[|ws| - 1].end ==> CoveredOnce(ws, ledger)
  }

  /** The chain never goes back between two ticks. */
  ghost predicate LedgersNeverGoBack(events: seq<Event>) {
    forall i, j :: 0 <= i < j < |events| && events[i].Tick? && events[j].Tick? ==> events[i].ledger <= events[j].ledger
  }

  /** A window that does not join on to the one before starts `windowLedgers` before its end. */
  predicate Follows(before: Window, w: Window, windowLedgers: int) {
    && ValidWindow(w.start, w.end) && before.end <= w.end
    && (w.start == before.end + 1 || w.start == w.end - windowLedgers)
  }

  ghost predicate EndsInOrder(ws: seq<Window>, windowLedgers: int) {
    && (ws != [] ==> ValidWindow(ws[0].start, ws[0].end))
    && (forall i :: 0 < i < |ws| ==> Follows(ws[i - 1], ws[i], windowLedgers))
  }

  lemma OneMoreInOrder(ws: seq<Window>, w: Window, windowLedgers: int)
    requires EndsInOrder(ws, windowLedgers) && ValidWindow(w.start, w.end)
    requires ws != [] ==> Follows(ws[|ws| - 1], w, windowLedgers)
    ensures EndsInOrder(ws + [w], windowLedgers)
  {
    var more := ws + [w];
    forall i | 0 < i < |more|
      ensures Follows(more[i - 1], more[i], windowLedgers)
    {
      assert more[i - 1] == ws[i - 1];
    }
  }

  lemma {:induction false} ProcessedEndInOrder(windowLedgers: int, maxSize: nat, ttlMs: nat, events: seq<Event>)
    requires LedgersNeverGoBack(events)
    ensures var ws := Processed(windowLedgers, maxSize, ttlMs, events);
            && EndsInOrder(ws, windowLedgers)
            && (ws != [] ==> exists k :: 0 <= k < |events| && events[k].Tick? && events[k].ledger == ws[|ws| - 1].end)
    decreases |events|
  {
    hide Run, EndsInOrder;
    if events != [] {
      var before, e := events[..|events| - 1], events[|events| - 1];
      var s, ws := Run(windowLedgers, maxSize, ttlMs, before), Processed(windowLedgers, maxSize, ttlMs, before);
      ProcessedEndInOrder(windowLedgers, maxSize, ttlMs, before);
      LastWindowIsKnown(windowLedgers, maxSize, ttlMs, before);
      EventMovesOneWindow(s, windowLedgers, e);
      if ws != [] {
        var k :| 0 <= k < |before| && before[k].Tick? && before[k].ledger == ws[|ws| - 1].end;
        assert events[k] == before[k];
      }
      if Processes(s, windowLedgers, e) {
        OneMoreInOrder(ws, ResultOf(s, windowLedgers, e.ledger, e.attempts).window, windowLedgers);
        assert events[|events| - 1].ledger == e.ledger;
      }
    } else {
      NothingIsInOrder(windowLedgers);
    }
  }

  lemma NothingIsInOrder(windowLedgers: int)
    ensures EndsInOrder([], windowLedgers)
  {
  }

  lemma TilesCover(ws: seq<Window>)
    requires Tiles(ws)
    ensures SpanIsCoveredOnce(ws)
  {
    forall ledger | |ws| > 0 && ws[0].start <= ledger <= ws[|ws| - 1].end
      ensures CoveredOnce(ws, ledger)
    {
      var at := TilesCoverOnce(ws, |ws| - 1, ledger);
    }
  }

  lemma {:induction false} LaterEndLater(ws: seq<Window>, windowLedgers: int, i: nat, j: nat)
    requires EndsInOrder(ws, windowLedgers) && i <= j < |ws|
    ensures ws[i].end <= ws[j].end && ValidWindow(ws[j].start, ws[j].end)
    decreases j
  {
    hide ValidWindow;
    if i < j {
      LaterEndLater(ws, windowLedgers, i, j - 1);
      assert Follows(ws[j - 1], ws[j], windowLedgers);
    } else if i > 0 {
      assert Follows(ws[i - 1], ws[i], windowLedgers);
    }
  }

  lemma LaterStartLater(ws: seq<Window>, windowLedgers: int, i: nat, j: nat)
    requires EndsInOrder(ws, windowLedgers) && i < j < |ws| && ws[i].start == ws[i].end - windowLedgers
    ensures ws[i].start <= ws[j].start
  {
    LaterEndLater(ws, windowLedgers, i, j - 1);
    LaterEndLater(ws, windowLedgers, i, i);
    assert Follows(ws[j - 1], ws[j], windowLedgers);
  }

  lemma OverlapShows(ws: seq<Window>, windowLedgers: int, i: nat)
    requires EndsInOrder(ws, windowLedgers) && i + 1 < |ws| && ws[i + 1].start <= ws[i].end
    ensures !SpanIsCoveredOnce(ws)
  {
    hide EndsInOrder;
    LaterEndLater(ws, windowLedgers, 0, i);
    LaterEndLater(ws, windowLedgers, 0, 0);
    LaterEndLater(ws, windowLedgers, i, i + 1);
    LaterEndLater(ws, windowLedgers, i, |ws| - 1);
    assert Covers(ws[i], ws[i].end) && Covers(ws[i + 1], ws[i].end);
    assert !CoveredOnce(ws, ws[i].end);
  }

  lemma GapShows(ws: seq<Window>, windowLedgers: int, i: nat)
    requires EndsInOrder(ws, windowLedgers) && i + 1 < |ws| && ws[i + 1].start > ws[i].end + 1
    ensures !SpanIsCoveredOnce(ws)
  {
    var skipped := ws[i].end + 1;
    assert Follows(ws[i], ws[i + 1], windowLedgers);
    hide EndsInOrder;
    forall j | 0 <= j < |ws|
      ensures !Covers(ws[j], skipped)
    {
      if j <= i {
        LaterEndLater(ws, windowLedgers, j, i);
      } else if j > i + 1 {
        LaterStartLater(ws, windowLedgers, i + 1, j);
      }
    }
    LaterEndLater(ws, windowLedgers, 0, 0);
    LaterEndLater(ws, windowLedgers, 0, i);
    LaterEndLater(ws, windowLedgers, i + 1, |ws| - 1);
    assert !CoveredOnce(ws, skipped);
  }

  lemma NotTiled(ws: seq<Window>, windowLedgers: int) returns (i: nat)
    requires EndsInOrder(ws, windowLedgers) && !Tiles(ws)
    ensures i + 1 < |ws| && ws[i + 1].start != ws[i].end + 1
  {
    forall k | 0 <= k < |ws|
      ensures ValidWindow(ws[k].start, ws[k].end)
    {
      LaterEndLater(ws, windowLedgers, k, k);
    }
    i :| 0 <= i < |ws| - 1 && ws[i + 1].start != ws[i].end + 1;
  }

  /** Windows that join on cover every ledger of their span once, even if the chain goes back. */
  lemma JoinedWindowsCoverOnce(windowLedgers: int, maxSize: nat, ttlMs: nat, events: seq<Event>)
    requires JoinsAlways(windowLedgers, maxSize, ttlMs, events)
    ensures SpanIsCoveredOnce(Processed(windowLedgers, maxSize, ttlMs, events))
  {
    ProcessedWindowsTileExactly(windowLedgers, maxSize, ttlMs, events);
    TilesCover(Processed(windowLedgers, maxSize, ttlMs, events));
  }

  /**
   With a chain that never goes back: no ledger between the first and the last processed window is skipped
   or covered twice if and only if each first window after a restart joins on to the last one.
   */
  lemma EveryLedgerCoveredOnce(windowLedgers: int, maxSize: nat, ttlMs: nat, events: seq<Event>)
    requires LedgersNeverGoBack(events)
    ensures SpanIsCoveredOnce(Processed(windowLedgers, maxSize, ttlMs, events)) <==>
            JoinsAlways(windowLedgers, maxSize, ttlMs, events)
  {
    hide SpanIsCoveredOnce, JoinsAlways, Processed;
    var ws := Processed(windowLedgers, maxSize, ttlMs, events);
    ProcessedWindowsTileExactly(windowLedgers, maxSize, ttlMs, events);
    ProcessedEndInOrder(windowLedgers, maxSize, ttlMs, events);
    if Tiles(ws) {
      TilesCover(ws);
    } else {
      var i := NotTiled(ws, windowLedgers);
      if ws[i + 1].start <= ws[i].end {
        OverlapShows(ws, windowLedgers, i);
      } else {
        GapShows(ws, windowLedgers, i);
      }
    }
  }

  // ---------------------------------------------------------------------
  // The shared cache
  // ---------------------------------------------------------------------

  /** Every cached attestation reports the window the cache was last scoped to. */
  ghost predicate InWindow(c: Cache<Attestation>) {
    forall i :: 0 <= i < |c.entries| ==> c.window == Some(c.entries[i].value.window)
  }

  lemma ThinsStaysInWindow(c: Cache<Attestation>, kept: seq<Entry<Attestation>>)
    requires InWindow(c) && Thins(kept, c.entries)
    ensures forall i :: 0 <= i < |kept| ==> c.window == Some(kept[i].value.window)
  {
    var at :| Picks(kept, c.entries, at);
  }

  lemma SetStaysInWindow(c: Cache<Attestation>, key: string, value: Attestation, now: int)
    requires InWindow(c) && c.window == Some(value.window)
    ensures InWindow(AfterSet(c, key, value, now)) && AfterSet(c, key, value, now).window == c.window
  {
    WithoutThins(c.entries, key);
    ThinsStaysInWindow(c, Without(c.entries, key));
  }

  lemma {:induction false} CreatorsStayInWindow(c: Cache<Attestation>, w: Window, creators: seq<Creator>)
    requires InWindow(c) && c.window == Some(w)
    ensures InWindow(AfterCreators(c, w, creators)) && AfterCreators(c, w, creators).window == Some(w)
    decreases |creators|
  {
    if creators != [] {
      CreatorsStayInWindow(c, w, creators[..|creators| - 1]);
      var before, last := AfterCreators(c, w, creators[..|creators| - 1]), creators[|creators| - 1];
      if last.outcome.Submitted? {
        SetStaysInWindow(before, last.address, Attestation(last.address, w, last.outcome.txHash), last.outcome.now);
      }
    }
  }

  lemma {:induction false} AttemptsStayInWindow(c: Cache<Attestation>, w: Window, attempts: seq<Attempt>)
    requires InWindow(c)
    ensures InWindow(AfterAttempts(c, w, attempts))
    ensures ValidWindow(w.start, w.end) && attempts != [] ==> AfterAttempts(c, w, attempts).window == Some(w)
    ensures !ValidWindow(w.start, w.end) ==> AfterAttempts(c, w, attempts) == c
    decreases |attempts|
  {
    if attempts != [] {
      var before, a := AfterAttempts(c, w, attempts[..|attempts| - 1]), attempts[|attempts| - 1];
      AttemptsStayInWindow(c, w, attempts[..|attempts| - 1]);
      if ValidWindow(w.start, w.end) && a.Fetched? {
        CreatorsStayInWindow(AfterBeginWindow(before, w.start, w.end), w, a.creators);
      }
    }
  }

  lemma EventStaysInWindow(s: Scheduler, windowLedgers: int, e: Event)
    requires InWindow(s.cache)
    ensures InWindow(AfterEvent(s, windowLedgers, e).cache)
  {
    match e
    case Tick(ledger, attempts) =>
      var w := NextWindow(s.lastWindowEnd, windowLedgers, ledger);
      AttemptsStayInWindow(s.cache, w, attempts);
      if FirstComplete(w, attempts).Some? {
        AttemptsStayInWindow(s.cache, w, attempts[..FirstComplete(w, attempts).value + 1]);
      }
    case CacheRead(key, now) =>
      WithoutThins(s.cache.entries, key);
      ThinsStaysInWindow(s.cache, Without(s.cache.entries, key));
      if Find(s.cache.entries, key).Some? {
        var i := FindAt(s.cache.entries, key);
      }
    case CacheSweep(now) =>
      SurvivorsThin(s.cache.entries, s.cache.ttlMs, now);
      ThinsStaysInWindow(s.cache, Survivors(s.cache.entries, s.cache.ttlMs, now));
    case KeyRotation(id) =>
    case Restart =>
  }

  /** After every event of a run, a served attestation reports the window last begun, never a closed one. */
  lemma {:induction false} ServedAttestationsAreCurrent(windowLedgers: int, maxSize: nat, ttlMs: nat,
                                                        events: seq<Event>,
                                                        key: string, now: int)
    ensures var c := Run(windowLedgers, maxSize, ttlMs, events).cache;
            && InWindow(c)
            && (Answer(c, key, now).Some? ==> c.window == Some(Answer(c, key, now).value.window))
    decreases |events|
  {
    var c := Run(windowLedgers, maxSize, ttlMs, events).cache;
    if events != [] {
      ServedAttestationsAreCurrent(windowLedgers, maxSize, ttlMs, events[..|events| - 1], key, now);
      var before := Run(windowLedgers, maxSize, ttlMs, events[..|events| - 1]);
      EventStaysInWindow(before, windowLedgers, events[|events| - 1]);
    }
    if Answer(c, key, now).Some? {
      var i := FindAt(c.entries, key);
    }
  }

  // ---------------------------------------------------------------------
  // Inside a tick
  // ---------------------------------------------------------------------

  /**
   A tick awaits the database and the network, and others use the cache meanwhile. `running` is the
   window of the attempt under way, none if the cache refused it.
   */
  datatype Shared = Shared(cache: Cache<Attestation>, running: Option<Window>)

  datatype Moment =
    | Begins(w: Window)
    | Attests(creator: Creator)
    | Meanwhile(e: Event)

  /** A creator is attested for the window of the attempt under way; only the cache events come in between. */
  predicate CanHappen(s: Shared, m: Moment) {
    match m
    case Begins(_) => true
    case Attests(_) => s.running.Some?
    case Meanwhile(e) => !e.Tick? && !e.Restart?
  }

  function AfterMoment(s: Shared, m: Moment): Shared
    requires CanHappen(s, m)
  {
    match m
    case Begins(w) =>
      Shared(AfterBeginWindow(s.cache, w.start, w.end), if ValidWindow(w.start, w.end) then Some(w) else None)
    case Attests(creator) => s.(cache := AfterCreator(s.cache, s.running.value, creator))
    case Meanwhile(e) => s.(cache := AfterEvent(Scheduler(0, s.cache), 0, e).cache)
  }

  ghost predicate AreMoments(states: seq<Shared>, moments: seq<Moment>) {
    && |states| == |moments| + 1
    && forall k :: 0 <= k < |moments| ==>
         CanHappen(states[k], moments[k]) && states[k + 1] == AfterMoment(states[k], moments[k])
  }

  ghost predicate ServesRunning(s: Shared) {
    InWindow(s.cache) && (s.running.Some? ==> s.cache.window == s.running)
  }

  lemma MomentStaysInWindow(s: Shared, m: Moment)
    requires ServesRunning(s) && CanHappen(s, m)
    ensures ServesRunning(AfterMoment(s, m))
  {
    match m
    case Begins(_) =>
    case Attests(creator) =>
      if creator.outcome.Submitted? {
        SetStaysInWindow(s.cache, creator.address,
                         Attestation(creator.address, s.running.value, creator.outcome.txHash), creator.outcome.now);
      }
    case Meanwhile(e) =>
      EventStaysInWindow(Scheduler(0, s.cache), 0, e);
  }

  /**
   Whatever reads, sweeps and key rotations come between the attempts and the creators of a tick: at
   every moment a served attestation reports the window last begun, never a closed one.
   */
  lemma {:induction false} ServedAtEveryMoment(maxSize: nat, ttlMs: nat, states: seq<Shared>, moments: seq<Moment>,
                                               n: nat,
                                               key: string, now: int)
    requires AreMoments(states, moments) && states[0] == Shared(Empty(maxSize, ttlMs), None) && n < |states|
    ensures ServesRunning(states[n])
    ensures var c := states[n].cache;
            Answer(c, key, now).Some? ==> c.window == Some(Answer(c, key, now).value.window)
  {
    if n > 0 {
      ServedAtEveryMoment(maxSize, ttlMs, states, moments, n - 1, key, now);
      MomentStaysInWindow(states[n - 1], moments[n - 1]);
    }
    if Answer(states[n].cache, key, now).Some? {
      var i := FindAt(states[n].cache.entries, key);
    }
  }

  /**
   A creator whose submission went through is served from then on, for the window under way, until the
   entry expires; one whose submission did not leaves the cache alone.
   */
  lemma AttestedIsServed(s: Shared, creator: Creator, now: int)
    requires s.running.Some?
    ensures var after := AfterMoment(s, Attests(creator)).cache;
            match creator.outcome
            case Submitted(txHash, at) =>
              Answer(after, creator.address, now) ==
              if s.cache.ttlMs > 0 && now - at > s.cache.ttlMs then None
              else Some(Attestation(creator.address, s.running.value, txHash))
            case _ => after == s.cache
  {
  }

  /** The moments of an attempt that nothing interrupts. */
  function AttemptMoments(w: Window, a: Attempt): seq<Moment> {
    if ValidWindow(w.start, w.end) && a.Fetched? then
      [Begins(w)] + seq(|a.creators|, i requires 0 <= i < |a.creators| => Attests(a.creators[i]))
    else
      [Begins(w)]
  }

  /** An attempt is its moments: begin the window, then one creator after the other. */
  lemma AttemptIsItsMoments(w: Window, a: Attempt, states: seq<Shared>)
    requires AreMoments(states, AttemptMoments(w, a))
    ensures states[|states| - 1].cache == AfterAttempt(states[0].cache, w, a)
  {
    var n := |states| - 1;
    assert states[1] == AfterMoment(states[0], AttemptMoments(w, a)[0]);
    if a.Fetched? && ValidWindow(w.start, w.end) {
      AttestedSoFar(w, a, states, n);
      assert a.creators[..|a.creators|] == a.creators;
    }
  }

  lemma {:induction false} AttestedSoFar(w: Window, a: Attempt, states: seq<Shared>, n: nat)
    requires AreMoments(states, AttemptMoments(w, a)) && 0 < n < |states|
    requires a.Fetched? && ValidWindow(w.start, w.end)
    ensures n - 1 <= |a.creators| && states[n].running == Some(w)
    ensures states[n].cache == AfterCreators(AfterBeginWindow(states[0].cache, w.start, w.end), w, a.creators[..n - 1])
  {
    var moments := AttemptMoments(w, a);
    assert states[n] == AfterMoment(states[n - 1], moments[n - 1]);
    if n > 1 {
      AttestedSoFar(w, a, states, n - 1);
      assert moments[n - 1] == Attests(a.creators[n - 2]);
      assert a.creators[..n - 1][..n - 2] == a.creators[..n - 2];
    }
  }

  // ---------------------------------------------------------------------
  // The scheduler
  // ---------------------------------------------------------------------

  class Oracle {
    const windowLedgers: int
    const cache: Heap.AttestationCache<Attestation>
    var lastWindowEnd: int

    constructor (windowLedgers: int, cache: Heap.AttestationCache<Attestation>)
      ensures this.windowLedgers == windowLedgers && this.cache == cache && lastWindowEnd == 0
    {
      this.windowLedgers, this.cache, lastWindowEnd := windowLedgers, cache, 0;
    }

    ghost predicate Valid()
      reads this, cache, cache.Repr
    {
      this !in cache.Repr && cache.Valid()
    }

    ghost function Model(): Scheduler
      requires Valid()
      reads this, cache, cache.Repr
    {
      Scheduler(lastWindowEnd, cache.Model())
    }

    /** Runs a begun window; false where the source throws because the window is not fully attested. */
    method RunWindow(w: Window, a: Attempt) returns (ok: bool)
      requires Valid()
      modifies cache.Repr
      ensures Valid() && fresh(cache.Repr - old(cache.Repr))
      ensures ok <==> a.Fetched? && forall i :: 0 <= i < |a.creators| ==> a.creators[i].outcome != SubmissionFailed
      ensures cache.Model() ==
              if a.Fetched? then AfterCreators(old(cache.Model()), w, a.creators) else old(cache.Model())
    {
      if a.FetchFailed? {
        return false;
      }
      var failedCreators: seq<string> := [];
      for i := 0 to |a.creators|
        invariant Valid() && fresh(cache.Repr - old(cache.Repr))
        invariant failedCreators == [] <==> forall k :: 0 <= k < i ==> !a.creators[k].outcome.SubmissionFailed?
        invariant cache.Model() == AfterCreators(old(cache.Model()), w, a.creators[..i])
      {
        var creator := a.creators[i];
        assert a.creators[..i + 1][..i] == a.creators[..i];
        match creator.outcome
        case InvalidAddress =>
        case SubmissionFailed =>
          failedCreators := failedCreators + [creator.address];
        case Submitted(txHash, now) =>
          cache.Set(creator.address, Attestation(creator.address, w, txHash), now);
      }
      assert a.creators[..|a.creators|] == a.creators;
      ok := failedCreators == [];
    }

    /** One attempt at a window: begin it, then run it. */
    method RunAttempt(w: Window, a: Attempt) returns (ok: bool)
      requires Valid()
      modifies cache.Repr
      ensures Valid() && fresh(cache.Repr - old(cache.Repr))
      ensures ok <==> 0 < w.start < w.end && NobodyMissed(a)
      ensures cache.Model() == AfterAttempt(old(cache.Model()), w, a)
    {
      var begun := cache.BeginWindow(w.start, w.end);
      if !begun {
        return false;
      }
      ok := RunWindow(w, a);
    }

    /** One tick; `Failed` where the source throws after the last retry. */
    method ScheduleLoop(currentLedger: int, attempts: seq<Attempt>) returns (r: TickResult)
      requires Valid() && |attempts| == MAX_RETRIES
      modifies this, cache.Repr
      ensures Valid() && fresh(cache.Repr - old(cache.Repr))
      ensures r == ResultOf(old(Model()), windowLedgers, currentLedger, attempts)
      ensures var start := if old(lastWindowEnd) == 0 then currentLedger - windowLedgers else old(lastWindowEnd) + 1;
              && (r == Skipped <==> currentLedger <= start)
              && (r.Attested? <==> 0 < start < currentLedger && exists k: nat :: FirstToMissNobody(attempts, k))
              && (r.Attested? ==> r.window == Window(start, currentLedger) && lastWindowEnd == currentLedger)
              && (!r.Attested? ==> lastWindowEnd == old(lastWindowEnd))
      ensures Model() == AfterTick(old(Model()), windowLedgers, currentLedger, attempts)
    {
      hide AfterAttempts, FirstComplete;
      var windowStart := if lastWindowEnd == 0 then currentLedger - windowLedgers else lastWindowEnd + 1;
      var windowEnd := currentLedger;
      TickProcessesExactly(Model(), windowLedgers, Tick(currentLedger, attempts));
      if windowEnd <= windowStart {
        return Skipped;
      }

      var w := Window(windowStart, windowEnd);
      var attempt, success := 0, false;
      assert attempts[..0] == [] && attempts[..|attempts|] == attempts;
      NoAttempts(cache.Model(), w);
      while attempt < MAX_RETRIES && !success
        invariant 0 <= attempt <= MAX_RETRIES
        invariant Valid() && fresh(cache.Repr - old(cache.Repr)) && lastWindowEnd == old(lastWindowEnd)
        invariant cache.Model() == AfterAttempts(old(cache.Model()), w, attempts[..attempt])
        invariant if success then FirstComplete(w, attempts[..attempt]) == Some(attempt - 1)
                  else FirstComplete(w, attempts[..attempt]).None?
      {
        OneMoreAttempt(old(cache.Model()), w, attempts, attempt);
        success := RunAttempt(w, attempts[attempt]);
        attempt := attempt + 1;
      }

      FirstCompleteInPrefix(w, attempts, attempt);
      if success {
        lastWindowEnd := windowEnd;
        return Attested(w);
      }
      return Failed;
    }
  }

  lemma NoAttempts(c: Cache<Attestation>, w: Window)
    ensures AfterAttempts(c, w, []) == c && FirstComplete(w, []).None?
  {
  }

  lemma OneMoreAttempt(c: Cache<Attestation>, w: Window, attempts: seq<Attempt>, n: nat)
    requires n < |attempts|
    ensures AfterAttempts(c, w, attempts[..n + 1]) == AfterAttempt(AfterAttempts(c, w, attempts[..n]), w, attempts[n])
    ensures FirstComplete(w, attempts[..n]).None? ==>
              FirstComplete(w, attempts[..n + 1]) ==
              if ValidWindow(w.start, w.end) && Complete(attempts[n]) then Some(n) else None
  {
    assert attempts[..n + 1][..n] == attempts[..n];
  }

  /** A completed prefix settles which attempt is first. */
  lemma {:induction false} FirstCompleteInPrefix(w: Window, attempts: seq<Attempt>, n: nat)
    requires n <= |attempts|
    ensures FirstComplete(w, attempts[..n]).Some? ==> FirstComplete(w, attempts) == FirstComplete(w, attempts[..n])
    decreases |attempts|
  {
    if n == |attempts| {
      assert attempts[..n] == attempts;
    } else {
      FirstCompleteInPrefix(w, attempts[..|attempts| - 1], n);
      assert attempts[..|attempts| - 1][..n] == attempts[..n];
    }
  }
}
