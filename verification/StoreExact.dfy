/**
  The answers of the shared hits table, exactly: what a client, a reader or a nonce is told
  depends on nothing but how often it came up in the window that ends now.
*/
module StoreExact {
  import opened Wrappers
  import opened HitStore
  import W = Windows

  /** The rows of a key are the last of its times; those that are missing are older than an hour. */
  ghost predicate Tail(rows: W.Times, times: W.Times, now: real) {
    && W.SuffixOf(rows, times) && W.Rising(times) && W.UpTo(times, |times|, now)
    && W.Before(times, |times| - |rows|, now - W.MEMORY)
  }

  lemma {:induction false} TailCount(rows: W.Times, times: W.Times, now: real, from: real)
    requires Tail(rows, times, now) && from >= now - W.MEMORY
    ensures |W.Since(rows, from)| == |W.InWindow(times, from)|
  {
    hide W.DropOld, W.Since;
    RisingSuffix(rows, times);
    W.SinceIsDropOld(rows, from);
    BeforeLater(times, |times| - |rows|, now - W.MEMORY, from);
    DropKeepsBefore(rows, times, from);
    W.DropsPrefix(rows, from);
    W.SuffixCount(W.Since(rows, from), times, from);
  }

  lemma {:induction false} TailCleaned(rows: W.Times, times: W.Times, now: real, later: real)
    requires Tail(rows, times, now) && now <= later
    ensures Tail(rows, times, later) && Tail(W.Since(rows, later - W.MEMORY), times, later)
  {
    hide W.DropOld, W.Since;
    RisingSuffix(rows, times);
    W.SinceIsDropOld(rows, later - W.MEMORY);
    BeforeLater(times, |times| - |rows|, now - W.MEMORY, later - W.MEMORY);
    DropKeepsBefore(rows, times, later - W.MEMORY);
  }

  // ------------------------------------------------------------------ clients

  lemma {:induction false} TailReached(events: seq<Event>, client: Key, limit: nat, window: real, start: real,
                                       now: real)
    requires Ruled(events, client, limit, window, start) && start <= now && forall ev :: ev in events ==> ev.now <= now
    requires 0.0 <= window <= W.MEMORY && limit > 0
    ensures Tail(Rows(Replay(map[], events), client), AdmittedTimes(map[], events, client), now)
  {
    assert Rows(map[], client) == [] && Held([], [], limit, window, start);
    hide Replay, AdmittedTimes, Rows, Ruled;
    HeldReached(map[], [], events, client, limit, window, start, now);
    assert [] + AdmittedTimes(map[], events, client) == AdmittedTimes(map[], events, client);
  }

  lemma {:induction false} AllowAnswer(hits: Hits, client: Key, limit: nat, window: real, now: real)
    requires limit > 0
    ensures var live := W.Since(Rows(Cleaned(hits, now), client), now - window);
            var answer := StepAllow(hits, client, limit, window, now).answer;
            && (answer == Admitted <==> |live| < limit)
            && (answer.Refused? <==> |live| >= limit)
            && (answer.Refused? ==> live != [] && answer.retry == W.Retry(Smallest(live), window, now))
  {
    hide Cleaned, Rows, W.Since, Smallest, W.Retry;
  }

  /**
    A client is admitted exactly when fewer than its limit of its requests were admitted in the
    window that ends now.
  */
  lemma {:induction false} SharedAdmitsExactly(events: seq<Event>, client: Key, limit: nat, window: real, start: real,
                                               now: real)
    requires Ruled(events, client, limit, window, start) && start <= now && forall ev :: ev in events ==> ev.now <= now
    requires 0.0 <= window <= W.MEMORY && limit > 0
    ensures StepAllow(Replay(map[], events), client, limit, window, now).answer == Admitted <==>
            |W.InWindow(AdmittedTimes(map[], events, client), now - window)| < limit
  {
    hide *;
    var hits, times := Replay(map[], events), AdmittedTimes(map[], events, client);
    TailReached(events, client, limit, window, start, now);
    CleanedRows(hits, now, client);
    TailCleaned(Rows(hits, client), times, now, now);
    TailCount(Rows(Cleaned(hits, now), client), times, now, now - window);
    AllowAnswer(hits, client, limit, window, now);
  }

  /** The refusal's time is tight: a second less, and the client is refused again, even if nobody else came. */
  lemma {:induction false} SharedRetryTight(before: seq<Event>, client: Key, limit: nat, window: real, start: real,
                                            refused: real, between: seq<Event>, again: real)
    requires 0.0 <= window <= W.MEMORY && limit > 0 && start <= refused <= again
    requires var ev := Event(Allow(client, limit, window), refused);
             && Ruled(before + [ev] + between, client, limit, window, start)
             && (forall e :: e in before ==> e.now <= refused)
             && forall e :: e in before + [ev] + between ==> e.now <= again
    requires var asked := StepAllow(Replay(map[], before), client, limit, window, refused);
             && asked.answer.Refused? && AdmittedTimes(asked.hits, between, client) == []
             && again <= refused + (asked.answer.retry - 1) as real
    ensures StepAllow(Replay(map[], before + [Event(Allow(client, limit, window), refused)] + between),
                      client, limit, window, again).answer != Admitted
  {
    var ev := Event(Allow(client, limit, window), refused);
    var all := before + [ev] + between;
    var times := AdmittedTimes(map[], before, client);
    RuledPrefix(before, [ev] + between, client, limit, window, start);
    assert before + ([ev] + between) == all;
    AdmittedAppend(map[], before, [ev] + between, client);
    RefusalAdmitsNone(Replay(map[], before), ev, between, client);
    assert times + [] == times;
    SharedAdmitsExactly(before, client, limit, window, start, refused);
    SharedAdmitsExactly(all, client, limit, window, start, again);
    SharedSeen(before, client, limit, window, start, refused, again);
  }

  lemma {:induction false} RuledPrefix(a: seq<Event>, b: seq<Event>, client: Key, limit: nat, window: real, start: real)
    requires Ruled(a + b, client, limit, window, start)
    ensures Ruled(a, client, limit, window, start)
  {
    hide OneRule;
    forall i | 0 <= i < |a| ensures (a + b)[i] == a[i] {}
  }

  lemma {:induction false} RefusalAdmitsNone(hits: Hits, ev: Event, between: seq<Event>, client: Key)
    requires ev.op.Allow? && ev.op.client == client && ev.op.limit > 0
    requires var asked := StepAllow(hits, client, ev.op.limit, ev.op.window, ev.now);
             asked.answer.Refused? && AdmittedTimes(asked.hits, between, client) == []
    ensures AdmittedTimes(hits, [ev] + between, client) == []
  {
    hide StepAllow;
    assert ([ev] + between)[0] == ev && ([ev] + between)[1..] == between;
  }

  /** Everything a refused client was refused for is still in the window a second before its time. */
  lemma {:induction false} SharedSeen(before: seq<Event>, client: Key, limit: nat, window: real, start: real,
                                      refused: real, again: real)
    requires Ruled(before, client, limit, window, start) && start <= refused
    requires forall e :: e in before ==> e.now <= refused
    requires 0.0 <= window <= W.MEMORY && limit > 0
    requires var answer := StepAllow(Replay(map[], before), client, limit, window, refused).answer;
             answer.Refused? && again <= refused + (answer.retry - 1) as real
    ensures var times := AdmittedTimes(map[], before, client);
            |W.InWindow(times, refused - window)| <= |W.InWindow(times, again - window)|
  {
    hide *;
    var hits, times := Replay(map[], before), AdmittedTimes(map[], before, client);
    var rows := Rows(Cleaned(hits, refused), client);
    TailReached(before, client, limit, window, start, refused);
    CleanedRows(hits, refused, client);
    TailCleaned(Rows(hits, client), times, refused, refused);
    AllowAnswer(hits, client, limit, window, refused);
    LiveStays(rows, times, refused, window, again);
  }

  lemma {:induction false} LiveStays(rows: W.Times, times: W.Times, refused: real, window: real, again: real)
    requires Tail(rows, times, refused) && 0.0 <= window <= W.MEMORY && W.Since(rows, refused - window) != []
    requires again <= refused + (W.Retry(Smallest(W.Since(rows, refused - window)), window, refused) - 1) as real
    ensures |W.InWindow(times, refused - window)| <= |W.InWindow(times, again - window)|
  {
    hide Tail, W.Since, Smallest, W.Retry;
    var oldest := Smallest(W.Since(rows, refused - window));
    OldestInWindow(rows, times, refused, window);
    SmallestMember(W.Since(rows, refused - window));
    SinceMember(rows, refused - window, oldest);
    W.RetryInTime(oldest, window, refused, again);
    var early, late := W.InWindow(times, refused - window), W.InWindow(times, again - window);
    assert forall i: nat :: i in early ==> i in late;
    SubsetSize(early, late);
  }

  lemma {:induction false} OldestInWindow(rows: W.Times, times: W.Times, now: real, window: real)
    requires Tail(rows, times, now) && 0.0 <= window <= W.MEMORY && W.Since(rows, now - window) != []
    ensures forall i :: i in W.InWindow(times, now - window) ==> times[i] >= Smallest(W.Since(rows, now - window))
  {
    var live := W.Since(rows, now - window);
    forall i | i in W.InWindow(times, now - window) ensures times[i] >= Smallest(live) {
      assert i >= |times| - |rows| && times[i] == rows[i - (|times| - |rows|)];
      SinceMember(rows, now - window, times[i]);
      SmallestLeast(live, times[i]);
    }
  }

  lemma {:induction false} SmallestLeast(ts: W.Times, t: real)
    requires t in ts
    ensures Smallest(ts) <= t
  {
    if |ts| > 1 {
      assert ts == [ts[0]] + ts[1..];
      if t in ts[1..] { SmallestLeast(ts[1..], t); }
    }
  }

  // -------------------------------------------------------- readers and nonces

  /** The transactions that add a hit for a key which no limiter uses. */
  ghost predicate Marks(ev: Event, key: Key) {
    match ev.op
    case Allow(_, _, _) => false
    case Count(k) => k == key
    case Verify(r, checkedAt) => Nonce(r.nonce) == key && WellFormed(r) && InTime(r, checkedAt) && r.signed
  }

  ghost function MarkTimes(events: seq<Event>, key: Key): W.Times {
    if events == [] then []
    else (if Marks(events[0], key) then [events[0].now] else []) + MarkTimes(events[1..], key)
  }

  lemma {:induction false} MarkStep(hits: Hits, ev: Event, key: Key, times: W.Times, now: real)
    requires !key.Client? && (ev.op.Allow? ==> ev.op.client.Client?)
    requires Tail(Rows(hits, key), times, now) && now <= ev.now
    ensures Tail(Rows(Step(hits, ev).hits, key), times + (if Marks(ev, key) then [ev.now] else []), ev.now)
  {
    var rows := Rows(hits, key);
    TailCleaned(rows, times, now, ev.now);
    CleanedRows(hits, ev.now, key);
    assert times + [] == times;
    if Marks(ev, key) {
      assert Rows(Step(hits, ev).hits, key) == rows + [ev.now] by { hide W.Since, InTime, WellFormed; }
      hide Step, Rows, W.Since, Marks;
      TailAppend(rows, times, ev.now);
    } else {
      hide W.Since, Tail, Smallest, W.Retry, WellFormed, InTime;
      if ev.op.Allow? {
        assert Rows(Step(hits, ev).hits, key) in {rows, Rows(Cleaned(hits, ev.now), key)};
      } else {
        assert Rows(Step(hits, ev).hits, key) == rows;
      }
    }
  }

  lemma {:induction false} TailAppend(rows: W.Times, times: W.Times, now: real)
    requires Tail(rows, times, now)
    ensures Tail(rows + [now], times + [now], now)
  {
    W.SuffixAppend(rows, times, now);
    W.RisingAppend(times, now);
    W.BeforeAppend(times, |times| - |rows|, now - W.MEMORY, now);
  }

  ghost predicate LimiterKeys(events: seq<Event>) {
    forall ev :: ev in events && ev.op.Allow? ==> ev.op.client.Client?
  }

  lemma {:induction false} MarksReached(hits: Hits, events: seq<Event>, key: Key, times: W.Times, now: real, end: real)
    requires !key.Client? && LimiterKeys(events) && Clocked(events)
    requires Tail(Rows(hits, key), times, now) && now <= end && forall ev :: ev in events ==> now <= ev.now <= end
    ensures Tail(Rows(Replay(hits, events), key), times + MarkTimes(events, key), end)
    decreases |events|
  {
    hide Tail, Rows, Step, Marks;
    if events == [] {
      TailCleaned(Rows(hits, key), times, now, end);
      assert times + [] == times;
    } else {
      var ev := events[0];
      assert ev in events && forall e :: e in events[1..] ==> e in events;
      var next := times + if Marks(ev, key) then [ev.now] else [];
      MarkStep(hits, ev, key, times, now);
      forall e | e in events[1..] ensures ev.now <= e.now {
        var i :| 0 <= i < |events[1..]| && events[1..][i] == e;
        assert events[i + 1] == e;
      }
      MarksReached(Step(hits, ev).hits, events[1..], key, next, ev.now, end);
      assert next + MarkTimes(events[1..], key) == times + MarkTimes(events, key);
    }
  }

  /** How often a key came up in the last hour. */
  ghost function Recent(events: seq<Event>, key: Key, now: real): nat {
    |W.InWindow(MarkTimes(events, key), now - W.MEMORY)|
  }

  lemma {:induction false} FirstEarliest(events: seq<Event>)
    requires Clocked(events)
    ensures forall ev :: ev in events ==> events[0].now <= ev.now
  {
    forall ev | ev in events ensures events[0].now <= ev.now {
      var i :| 0 <= i < |events| && events[i] == ev;
    }
  }

  lemma {:induction false} TailMarked(events: seq<Event>, key: Key, now: real)
    requires !key.Client? && LimiterKeys(events) && Clocked(events) && forall ev :: ev in events ==> ev.now <= now
    ensures Tail(Rows(Replay(map[], events), key), MarkTimes(events, key), now)
  {
    assert Rows(map[], key) == [];
    var first := if events == [] then now else events[0].now;
    FirstEarliest(events);
    assert Tail([], [], first);
    hide *;
    if events != [] { assert events[0] in events; }
    MarksReached(map[], events, key, [], first, now);
    assert [] + MarkTimes(events, key) == MarkTimes(events, key);
  }

  lemma {:induction false} RecentSeen(events: seq<Event>, key: Key, now: real)
    requires !key.Client? && LimiterKeys(events) && Clocked(events) && forall ev :: ev in events ==> ev.now <= now
    ensures |W.Since(Rows(Replay(map[], events), key), now - W.MEMORY)| == Recent(events, key, now)
  {
    hide Replay, MarkTimes, Tail, Rows, W.Since, W.InWindow, LimiterKeys, Clocked;
    TailMarked(events, key, now);
    TailCount(Rows(Replay(map[], events), key), MarkTimes(events, key), now, now - W.MEMORY);
  }

  /** A reader is told how many of their hits fall into the last hour. */
  lemma {:induction false} CountsExactly(events: seq<Event>, key: Key, now: real)
    requires !key.Client? && LimiterKeys(events) && Clocked(events) && forall ev :: ev in events ==> ev.now <= now
    ensures StepCount(Replay(map[], events), key, now).answer == Counted(Recent(events, key, now))
  {
    hide Replay, Recent, W.Since;
    RecentSeen(events, key, now);
  }

  /**
    What a signed request is answered: the first check it fails, and when it passes them all,
    whether its nonce has come up in a request that passed them within the last hour.
  */
  lemma {:induction false} VerifiesExactly(events: seq<Event>, r: Request, checkedAt: real, now: real)
    requires LimiterKeys(events) && Clocked(events) && forall ev :: ev in events ==> ev.now <= now
    ensures var answer := StepVerify(Replay(map[], events), r, checkedAt, now).answer;
            && (answer == Missing <==> !WellFormed(r))
            && (answer == Expired <==> WellFormed(r) && !InTime(r, checkedAt))
            && (answer == BadSignature <==> WellFormed(r) && InTime(r, checkedAt) && !r.signed)
            && (answer == Replayed <==>
                  WellFormed(r) && InTime(r, checkedAt) && r.signed && Recent(events, Nonce(r.nonce), now) > 0)
            && (answer == Accepted <==>
                  WellFormed(r) && InTime(r, checkedAt) && r.signed && Recent(events, Nonce(r.nonce), now) == 0)
  {
    hide Replay, Recent, W.Since, WellFormed, InTime, LimiterKeys;
    RecentSeen(events, Nonce(r.nonce), now);
  }

  /** A request stamped with the epoch of its time is in time for the rest of that epoch and the whole next one. */
  lemma {:induction false} InTimeFor(r: Request, stamped: real, checkedAt: real)
    requires r.epoch == EpochAt(stamped) && stamped <= checkedAt
    ensures InTime(r, checkedAt) <==> checkedAt < (EpochAt(stamped) + 2) as real * W.EPOCH
    ensures checkedAt - stamped <= W.EPOCH ==> InTime(r, checkedAt)
    ensures checkedAt - stamped >= 2.0 * W.EPOCH ==> !InTime(r, checkedAt)
  {
    var e, f := EpochAt(stamped), EpochAt(checkedAt);
    EpochSpan(stamped);
    EpochSpan(checkedAt);
    hide EpochAt;
  }

  lemma {:induction false} EpochSpan(t: real)
    ensures EpochAt(t) as real * W.EPOCH <= t < (EpochAt(t) + 1) as real * W.EPOCH
  {
    var q := t / W.EPOCH;
    assert q.Floor as real <= q < q.Floor as real + 1.0;
    assert q * W.EPOCH == t;
  }
}
