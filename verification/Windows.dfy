/**
  Sliding windows over recorded hits: the in-process limiter with its sweep, and the
  shared store behind the limiter, the content guard and the nonces of signed requests.

  Times are in seconds; the rows of the shared hits table are grouped by key.
*/
module Windows {
  import opened Wrappers

  const MEMORY := 3600.0
  const SWEEP_EVERY := 60.0
  const EPOCH := 600.0

  type Times = seq<real>

  ghost predicate Rising(ts: Times) {
    forall i, j :: 0 <= i < j < |ts| ==> ts[i] <= ts[j]
  }

  /** What is left once the first hits, as long as they are older than the cutoff, are dropped. */
  function DropOld(ts: Times, cutoff: real): Times {
    if ts != [] && ts[0] < cutoff then DropOld(ts[1..], cutoff) else ts
  }

  /** What is left is the end of the list, from the first hit inside the window on. */
  lemma {:induction false} DropsPrefix(ts: Times, cutoff: real)
    ensures var live := DropOld(ts, cutoff);
            && |live| <= |ts| && live == ts[|ts| - |live|..]
            && (forall i :: 0 <= i < |ts| - |live| ==> ts[i] < cutoff)
            && (live != [] ==> live[0] >= cutoff)
  {
    if ts != [] && ts[0] < cutoff {
      DropsPrefix(ts[1..], cutoff);
      assert forall i :: 0 < i < |ts| ==> ts[i] == ts[1..][i - 1];
    }
  }

  /** The hits that are no older than the cutoff, wherever they stand. */
  function Since(ts: Times, cutoff: real): Times {
    if ts == [] then [] else (if ts[0] >= cutoff then [ts[0]] else []) + Since(ts[1..], cutoff)
  }

  /** On rising times the query and the popping loop see the same hits. */
  lemma {:induction false} SinceIsDropOld(ts: Times, cutoff: real)
    requires Rising(ts)
    ensures Since(ts, cutoff) == DropOld(ts, cutoff)
  {
    if ts != [] {
      if ts[0] < cutoff {
        SinceIsDropOld(ts[1..], cutoff);
        assert [] + Since(ts[1..], cutoff) == Since(ts[1..], cutoff);
      } else {
        AllSince(ts, cutoff);
      }
    }
  }

  lemma {:induction false} AllSince(ts: Times, cutoff: real)
    requires forall i :: 0 <= i < |ts| ==> ts[i] >= cutoff
    ensures Since(ts, cutoff) == ts
  {
    if ts != [] {
      AllSince(ts[1..], cutoff);
      assert ts == [ts[0]] + ts[1..];
    }
  }

  /** Any `limit` + 1 hits span more than `window`: no closed interval of that length holds more than `limit`. */
  ghost predicate Spaced(ts: Times, limit: nat, window: real) {
    forall i, j :: 0 <= i < j < |ts| && j == i + limit ==> ts[j] - ts[i] > window
  }

  lemma {:induction false} SpacedMeansBounded(ts: Times, limit: nat, window: real, from: real, i: nat, n: nat)
    requires Spaced(ts, limit, window) && i + n <= |ts|
    requires forall k :: i <= k < i + n ==> from <= ts[k] <= from + window
    requires limit > 0
    ensures n <= limit
  {
    assert 0 < limit && i + limit < |ts| ==> ts[i + limit] - ts[i] > window;
  }

  // ------------------------------------------------------- in-process limiter

  type Key = nat

  datatype Call = Call(key: Key, now: real, limit: nat, window: real)

  datatype Limiter = Limiter(hits: map<Key, Times>, lastSweep: real)

  function Bucket(hits: map<Key, Times>, key: Key): Times {
    if key in hits then hits[key] else []
  }

  function Swept(s: Limiter, now: real): Limiter {
    if now - s.lastSweep < SWEEP_EVERY then s
    else Limiter(map k | k in s.hits && DropOld(s.hits[k], now - MEMORY) != [] :: DropOld(s.hits[k], now - MEMORY), now)
  }

  function Live(s: Limiter, c: Call): Times {
    DropOld(Bucket(Swept(s, c.now).hits, c.key), c.now - c.window)
  }

  predicate Admits(s: Limiter, c: Call) {
    |Live(s, c)| < c.limit
  }

  function After(s: Limiter, c: Call): Limiter {
    var swept := Swept(s, c.now);
    swept.(hits := swept.hits[c.key := Live(s, c) + if Admits(s, c) then [c.now] else []])
  }

  /** The whole seconds, at least one, until the oldest hit has left the window. */
  function Retry(oldest: real, window: real, now: real): int {
    var wait := (oldest + window - now).Floor + 1;
    if wait < 1 then 1 else wait
  }

  function RetryAfter(s: Limiter, c: Call): int
    requires Live(s, c) != []
  {
    Retry(Live(s, c)[0], c.window, c.now)
  }

  ghost function Replay(s: Limiter, calls: seq<Call>): Limiter
    decreases |calls|
  {
    if calls == [] then s else Replay(After(s, calls[0]), calls[1..])
  }

  /** The times at which calls for `key` were let through. */
  ghost function Accepted(s: Limiter, calls: seq<Call>, key: Key): Times
    decreases |calls|
  {
    if calls == [] then []
    else Hit(s, calls[0], key) + Accepted(After(s, calls[0]), calls[1..], key)
  }

  /** A non-decreasing clock, and one rule for `key`. */
  ghost predicate Proper(calls: seq<Call>, key: Key, limit: nat, window: real, start: real) {
    && (forall i :: 0 <= i < |calls| ==> start <= calls[i].now)
    && (forall i, j :: 0 <= i < j < |calls| ==> calls[i].now <= calls[j].now)
    && (forall i :: 0 <= i < |calls| && calls[i].key == key ==> calls[i].limit == limit && calls[i].window == window)
  }

  // ---------------------------------------------- one bucket and its history

  predicate SuffixOf(a: Times, b: Times) {
    |a| <= |b| && a == b[|b| - |a|..]
  }

  ghost predicate UpTo(ts: Times, k: nat, bound: real)
    requires k <= |ts|
  {
    forall i :: 0 <= i < k ==> ts[i] <= bound
  }

  ghost predicate Before(ts: Times, k: nat, bound: real)
    requires k <= |ts|
  {
    forall i :: 0 <= i < k ==> ts[i] < bound
  }

  /** The bucket holds the accepted hits but for some first ones, all older than the window. */
  ghost predicate Kept(bucket: Times, accepted: Times, limit: nat, window: real, now: real) {
    && SuffixOf(bucket, accepted) && |bucket| <= limit
    && Rising(accepted) && UpTo(accepted, |accepted|, now)
    && Before(accepted, |accepted| - |bucket|, now - window)
    && Spaced(accepted, limit, window)
  }

  lemma {:induction false} KeptLater(bucket: Times, accepted: Times, limit: nat, window: real, now: real, later: real)
    requires Kept(bucket, accepted, limit, window, now) && now <= later
    ensures Kept(bucket, accepted, limit, window, later)
  {}

  lemma {:induction false} KeptDrop(bucket: Times, accepted: Times, limit: nat, window: real, now: real, cutoff: real)
    requires Kept(bucket, accepted, limit, window, now) && cutoff <= now - window
    ensures Kept(DropOld(bucket, cutoff), accepted, limit, window, now)
  {
    hide DropOld;
    DropsPrefix(bucket, cutoff);
    var live := DropOld(bucket, cutoff);
    forall i | 0 <= i < |accepted| - |live| ensures accepted[i] < now - window {
      if i >= |accepted| - |bucket| { assert accepted[i] == bucket[i - (|accepted| - |bucket|)]; }
    }
  }

  lemma {:induction false} SuffixShorter(a: Times, b: Times)
    requires SuffixOf(a, b)
    ensures |a| <= |b|
  {}

  lemma {:induction false} SuffixAppend(a: Times, b: Times, t: real)
    requires SuffixOf(a, b)
    ensures SuffixOf(a + [t], b + [t])
  {}

  lemma {:induction false} SpacedAppend(accepted: Times, k: nat, limit: nat, window: real, now: real)
    requires Spaced(accepted, limit, window) && k <= |accepted| < k + limit
    requires Before(accepted, k, now - window)
    ensures Spaced(accepted + [now], limit, window)
  {
    var all := accepted + [now];
    forall i, j | 0 <= i < j < |all| && j == i + limit ensures all[j] - all[i] > window {
      assert all[i] == accepted[i];
    }
  }

  lemma {:induction false} RisingAppend(ts: Times, now: real)
    requires Rising(ts) && UpTo(ts, |ts|, now)
    ensures Rising(ts + [now]) && UpTo(ts + [now], |ts| + 1, now)
  {}

  lemma {:induction false} BeforeAppend(ts: Times, k: nat, bound: real, now: real)
    requires k <= |ts| && Before(ts, k, bound)
    ensures Before(ts + [now], k, bound)
  {}

  lemma {:induction false} KeptAppend(bucket: Times, accepted: Times, limit: nat, window: real, now: real)
    requires Kept(bucket, accepted, limit, window, now) && |bucket| < limit
    ensures Kept(bucket + [now], accepted + [now], limit, window, now)
  {
    hide SuffixOf, Spaced, Rising, UpTo, Before;
    assert |bucket| <= |accepted| by { SuffixShorter(bucket, accepted); }
    SuffixAppend(bucket, accepted, now);
    RisingAppend(accepted, now);
    BeforeAppend(accepted, |accepted| - |bucket|, now - window, now);
    SpacedAppend(accepted, |accepted| - |bucket|, limit, window, now);
  }

  lemma {:induction false} SweptBucket(s: Limiter, now: real, key: Key)
    ensures Bucket(Swept(s, now).hits, key) == Bucket(s.hits, key)
         || Bucket(Swept(s, now).hits, key) == DropOld(Bucket(s.hits, key), now - MEMORY)
  {}

  /** What one call does to the bucket of `key`. */
  lemma {:induction false} AfterBucket(s: Limiter, c: Call, key: Key)
    ensures Bucket(After(s, c).hits, key)
         == if c.key == key then Live(s, c) + (if Admits(s, c) then [c.now] else [])
            else Bucket(Swept(s, c.now).hits, key)
  {}

  ghost function Hit(s: Limiter, c: Call, key: Key): Times {
    if c.key == key && Admits(s, c) then [c.now] else []
  }

  lemma {:induction false} BucketLive(bucket: Times, swept: Times, accepted: Times, limit: nat, window: real,
                                      later: real)
    requires Kept(bucket, accepted, limit, window, later) && 0.0 <= window <= MEMORY
    requires swept == bucket || swept == DropOld(bucket, later - MEMORY)
    ensures Kept(swept, accepted, limit, window, later)
    ensures Kept(DropOld(swept, later - window), accepted, limit, window, later)
  {
    hide Kept, DropOld;
    KeptDrop(bucket, accepted, limit, window, later, later - MEMORY);
    KeptDrop(swept, accepted, limit, window, later, later - window);
  }

  /** One call, seen on the bucket alone. */
  lemma {:induction false} BucketStep(bucket: Times, swept: Times, accepted: Times, limit: nat, window: real,
                                      now: real, later: real)
    requires Kept(bucket, accepted, limit, window, now) && now <= later && 0.0 <= window <= MEMORY
    requires swept == bucket || swept == DropOld(bucket, later - MEMORY)
    ensures Kept(swept, accepted, limit, window, later)
    ensures var live := DropOld(swept, later - window);
            if |live| < limit then Kept(live + [later], accepted + [later], limit, window, later)
            else Kept(live, accepted, limit, window, later)
  {
    hide *;
    KeptLater(bucket, accepted, limit, window, now, later);
    BucketLive(bucket, swept, accepted, limit, window, later);
    var live := DropOld(swept, later - window);
    if |live| < limit { KeptAppend(live, accepted, limit, window, later); }
  }

  lemma {:induction false} AfterFaithful(s: Limiter, accepted: Times, c: Call, key: Key, limit: nat, window: real,
                                         now: real)
    requires Kept(Bucket(s.hits, key), accepted, limit, window, now) && now <= c.now && 0.0 <= window <= MEMORY
    requires c.key == key ==> c.limit == limit && c.window == window
    ensures Kept(Bucket(After(s, c).hits, key), accepted + Hit(s, c, key), limit, window, c.now)
  {
    hide Kept, DropOld, Swept, After, Bucket;
    SweptBucket(s, c.now, key);
    AfterBucket(s, c, key);
    BucketStep(Bucket(s.hits, key), Bucket(Swept(s, c.now).hits, key), accepted, limit, window, now, c.now);
    assert accepted + [] == accepted;
    assert c.key == key ==> Live(s, c) + [] == Live(s, c);
  }

  lemma {:induction false} ProperTail(calls: seq<Call>, key: Key, limit: nat, window: real, start: real)
    requires Proper(calls, key, limit, window, start) && calls != []
    ensures Proper(calls[1..], key, limit, window, calls[0].now)
    ensures start <= calls[0].now && (calls[0].key == key ==> calls[0].limit == limit && calls[0].window == window)
  {}

  lemma {:induction false} RunFaithful(s: Limiter, accepted: Times, calls: seq<Call>, key: Key, limit: nat,
                                       window: real, now: real, end: real)
    requires Kept(Bucket(s.hits, key), accepted, limit, window, now) && Proper(calls, key, limit, window, now)
    requires 0.0 <= window <= MEMORY && now <= end && forall c :: c in calls ==> c.now <= end
    ensures Kept(Bucket(Replay(s, calls).hits, key), accepted + Accepted(s, calls, key), limit, window, end)
    decreases |calls|
  {
    hide Kept, After, Hit, Proper, Bucket;
    if calls == [] {
      assert accepted + [] == accepted;
      KeptLater(Bucket(s.hits, key), accepted, limit, window, now, end);
    } else {
      var c, hit := calls[0], Hit(s, calls[0], key);
      ProperTail(calls, key, limit, window, now);
      AfterFaithful(s, accepted, c, key, limit, window, now);
      assert c in calls && forall d :: d in calls[1..] ==> d in calls;
      RunFaithful(After(s, c), accepted + hit, calls[1..], key, limit, window, c.now, end);
      assert accepted + Accepted(s, calls, key) == accepted + hit + Accepted(After(s, c), calls[1..], key);
    }
  }

  // ------------------------------------------------------------- long windows

  const FRESH := Limiter(map[], 0.0)

  ghost function Repeat<T>(t: T, n: nat): (ts: seq<T>)
    ensures |ts| == n && forall i :: 0 <= i < n ==> ts[i] == t
  {
    if n == 0 then [] else [t] + Repeat(t, n - 1)
  }

  lemma {:induction false} DropSame(n: nat, t: real, cutoff: real)
    ensures DropOld(Repeat(t, n), cutoff) == if t < cutoff then [] else Repeat(t, n)
  {
    var ts := Repeat(t, n);
    DropsPrefix(ts, cutoff);
    var live := DropOld(ts, cutoff);
    if live != [] { assert live[0] == t; }
    if |live| < |ts| { assert ts[0] < cutoff; }
  }

  lemma {:induction false} SweepTimes(s: Limiter, c: Call)
    ensures After(s, c).lastSweep == Swept(s, c.now).lastSweep
    ensures s.lastSweep == c.now ==> Swept(s, c.now) == s
  {}

  lemma {:induction false} RepeatMore(t: real, n: nat)
    ensures Repeat(t, n) + [t] == Repeat(t, n + 1)
  {}

  lemma {:induction false} SameInstant(s: Limiter, c: Call, held: nat)
    requires held < c.limit && c.window > 0.0 && s.lastSweep == c.now && Bucket(s.hits, c.key) == Repeat(c.now, held)
    ensures Hit(s, c, c.key) == [c.now]
    ensures After(s, c).lastSweep == c.now && Bucket(After(s, c).hits, c.key) == Repeat(c.now, held + 1)
  {
    hide Repeat, Bucket, DropOld, Swept, After;
    SweepTimes(s, c);
    DropSame(held, c.now, c.now - c.window);
    AfterBucket(s, c, c.key);
    RepeatMore(c.now, held);
  }

  lemma {:induction false} BurstAccepted(s: Limiter, c: Call, n: nat, held: nat)
    requires held + n <= c.limit && c.window > 0.0 && s.lastSweep == c.now
        && Bucket(s.hits, c.key) == Repeat(c.now, held)
    ensures Accepted(s, Repeat(c, n), c.key) == Repeat(c.now, n)
    ensures Replay(s, Repeat(c, n)).lastSweep == c.now
    ensures Bucket(Replay(s, Repeat(c, n)).hits, c.key) == Repeat(c.now, held + n)
    decreases n
  {
    hide After, Hit, Bucket;
    if n > 0 {
      SameInstant(s, c, held);
      assert Repeat(c, n)[1..] == Repeat(c, n - 1);
      BurstAccepted(After(s, c), c, n - 1, held + 1);
    }
  }

  lemma {:induction false} AcceptedAppend(s: Limiter, a: seq<Call>, b: seq<Call>, key: Key)
    ensures Accepted(s, a + b, key) == Accepted(s, a, key) + Accepted(Replay(s, a), b, key)
    decreases |a|
  {
    hide After, Hit;
    if a == [] {
      assert a + b == b;
    } else {
      assert (a + b)[0] == a[0] && (a + b)[1..] == a[1..] + b;
      AcceptedAppend(After(s, a[0]), a[1..], b, key);
    }
  }

  /** `limit` calls at 100 s and one a whole window later. */
  ghost function Leaking(key: Key, limit: nat, window: real): seq<Call> {
    Repeat(Call(key, 100.0, limit, window), limit) + [Call(key, 100.0 + window, limit, window)]
  }

  /** The first call sweeps, the others fill the bucket. */
  lemma {:induction false} FirstOfBurst(c: Call)
    requires c.limit > 0 && c.now == 100.0
    ensures var s := After(FRESH, c);
            Hit(FRESH, c, c.key) == [100.0] && s.lastSweep == 100.0 && Bucket(s.hits, c.key) == Repeat(100.0, 1)
  {
    assert Live(FRESH, c) == [];
    AfterBucket(FRESH, c, c.key);
  }

  lemma {:induction false} BurstFromFresh(c: Call)
    requires c.limit > 0 && c.window > 0.0 && c.now == 100.0
    ensures Accepted(FRESH, Repeat(c, c.limit), c.key) == Repeat(100.0, c.limit)
    ensures Replay(FRESH, Repeat(c, c.limit)).lastSweep == 100.0
    ensures Bucket(Replay(FRESH, Repeat(c, c.limit)).hits, c.key) == Repeat(100.0, c.limit)
  {
    hide After, Hit, Bucket;
    FirstOfBurst(c);
    assert Repeat(c, c.limit)[0] == c && Repeat(c, c.limit)[1..] == Repeat(c, c.limit - 1);
    BurstAccepted(After(FRESH, c), c, c.limit - 1, 1);
  }

  lemma {:induction false} ForgottenHit(s: Limiter, c: Call, n: nat)
    requires c.limit > 0 && Bucket(s.hits, c.key) == Repeat(100.0, n) && s.lastSweep == 100.0 && c.now > 100.0 + MEMORY
    ensures Hit(s, c, c.key) == [c.now]
  {
    DropSame(n, 100.0, c.now - MEMORY);
    hide Repeat;
    assert Bucket(Swept(s, c.now).hits, c.key) == [];
  }

  lemma {:induction false} NotSpaced(limit: nat, window: real)
    requires limit > 0
    ensures !Spaced(Repeat(100.0, limit) + [100.0 + window], limit, window)
  {
    var all := Repeat(100.0, limit) + [100.0 + window];
    assert all[limit] - all[0] == window;
  }

  /** With a window longer than the sweep remembers, one call too many gets through. */
  lemma {:induction false} LongWindowLeaks(key: Key, limit: nat, window: real)
    requires limit > 0 && window > MEMORY
    ensures !Spaced(Accepted(FRESH, Leaking(key, limit, window), key), limit, window)
  {
    hide After, Hit, Swept, Bucket, Spaced, Repeat;
    var c := Call(key, 100.0, limit, window);
    var last := Call(key, 100.0 + window, limit, window);
    var s := Replay(FRESH, Repeat(c, limit));
    BurstFromFresh(c);
    ForgottenHit(s, last, limit);
    AcceptedAppend(FRESH, Repeat(c, limit), [last], key);
    assert Accepted(s, [last], key) == [last.now] + Accepted(After(s, last), [last][1..], key);
    assert Accepted(FRESH, Leaking(key, limit, window), key) == Repeat(100.0, limit) + [last.now];
    NotSpaced(limit, window);
  }

  lemma {:induction false} LeakingProper(key: Key, limit: nat, window: real)
    requires window > 0.0
    ensures Proper(Leaking(key, limit, window), key, limit, window, 0.0)
  {}

  lemma {:induction false} FreshKept(key: Key, limit: nat, window: real)
    ensures Kept(Bucket(FRESH.hits, key), [], limit, window, 0.0)
  {}

  /** Every proper run of a limiter that started empty keeps its bucket faithful. */
  lemma {:induction false} FreshRun(calls: seq<Call>, key: Key, limit: nat, window: real, end: real)
    requires Proper(calls, key, limit, window, 0.0) && 0.0 <= window <= MEMORY
    requires 0.0 <= end && forall c :: c in calls ==> c.now <= end
    ensures Kept(Bucket(Replay(FRESH, calls).hits, key), Accepted(FRESH, calls, key), limit, window, end)
  {
    hide Kept, Bucket, After, Hit, Proper;
    FreshKept(key, limit, window);
    RunFaithful(FRESH, [], calls, key, limit, window, 0.0, end);
    assert [] + Accepted(FRESH, calls, key) == Accepted(FRESH, calls, key);
  }

  lemma {:induction false} LastIsLatest(calls: seq<Call>, key: Key, limit: nat, window: real) returns (end: real)
    requires Proper(calls, key, limit, window, 0.0)
    ensures 0.0 <= end && forall c :: c in calls ==> c.now <= end
  {
    end := if calls == [] then 0.0 else calls[|calls| - 1].now;
  }

  lemma {:induction false} ShortWindowHolds(calls: seq<Call>, key: Key, limit: nat, window: real)
    requires Proper(calls, key, limit, window, 0.0) && 0.0 <= window <= MEMORY
    ensures Spaced(Accepted(FRESH, calls, key), limit, window)
  {
    hide Spaced, Proper, SuffixOf, Rising, UpTo, Before;
    var end := LastIsLatest(calls, key, limit, window);
    FreshRun(calls, key, limit, window, end);
  }

  /** The limiter keeps its promise on every run exactly for windows the sweep does not cut short. */
  lemma {:induction false} LimiterExact(key: Key, limit: nat, window: real)
    requires limit > 0 && window > 0.0
    ensures (forall calls: seq<Call> :: Proper(calls, key, limit, window, 0.0) ==>
               Spaced(Accepted(FRESH, calls, key), limit, window))
       <==> window <= MEMORY
  {
    hide Spaced, Proper, Leaking;
    if window <= MEMORY {
      forall calls: seq<Call> | Proper(calls, key, limit, window, 0.0)
        ensures Spaced(Accepted(FRESH, calls, key), limit, window)
      {
        ShortWindowHolds(calls, key, limit, window);
      }
    } else {
      LongWindowLeaks(key, limit, window);
      LeakingProper(key, limit, window);
    }
  }

  // --------------------------------------------------------------- retrying

  lemma {:induction false} SuffixTransitive(a: Times, b: Times, c: Times)
    requires SuffixOf(a, b) && SuffixOf(b, c)
    ensures SuffixOf(a, c)
  {}

  /** A call that is not accepted for `key` leaves the end of its bucket. */
  lemma {:induction false} AfterShrinks(s: Limiter, c: Call, key: Key)
    requires Hit(s, c, key) == []
    ensures SuffixOf(Bucket(After(s, c).hits, key), Bucket(s.hits, key))
  {
    SweptShrinks(s, c.now, key);
    AfterBucket(s, c, key);
    hide DropOld, Swept, After;
    var swept := Bucket(Swept(s, c.now).hits, key);
    if c.key == key {
      DropsPrefix(swept, c.now - c.window);
      assert Live(s, c) + [] == Live(s, c);
      SuffixTransitive(Live(s, c), swept, Bucket(s.hits, key));
    }
  }

  /** While nothing is accepted for `key`, its bucket only loses hits at the front. */
  lemma {:induction false} BucketShrinks(s: Limiter, calls: seq<Call>, key: Key)
    requires Accepted(s, calls, key) == []
    ensures SuffixOf(Bucket(Replay(s, calls).hits, key), Bucket(s.hits, key))
    decreases |calls|
  {
    if calls != [] {
      hide SuffixOf, After, Hit;
      assert Hit(s, calls[0], key) == [] && Accepted(After(s, calls[0]), calls[1..], key) == [];
      AfterShrinks(s, calls[0], key);
      BucketShrinks(After(s, calls[0]), calls[1..], key);
      SuffixTransitive(Bucket(Replay(s, calls).hits, key), Bucket(After(s, calls[0]).hits, key), Bucket(s.hits, key));
    } else {
      assert Bucket(s.hits, key)[0..] == Bucket(s.hits, key);
    }
  }

  /** Once the oldest hit has left the window, a bucket at the limit has room. */
  lemma {:induction false} RoomAgain(live: Times, swept: Times, limit: nat, cutoff: real)
    requires SuffixOf(swept, live) && 0 < |live| <= limit && live[0] < cutoff
    ensures |DropOld(swept, cutoff)| < limit
  {
    hide DropOld;
    DropsPrefix(swept, cutoff);
    if |swept| == |live| { assert swept[0] == live[0]; }
  }

  lemma {:induction false} LiveWithinLimit(s: Limiter, accepted: Times, c: Call, now: real)
    requires Kept(Bucket(s.hits, c.key), accepted, c.limit, c.window, now) && now <= c.now && 0.0 <= c.window <= MEMORY
    requires c.limit > 0 && !Admits(s, c)
    ensures Bucket(After(s, c).hits, c.key) == Live(s, c) && 0 < |Live(s, c)| <= c.limit
  {
    hide Kept, Swept, After, Bucket, DropOld;
    AfterBucket(s, c, c.key);
    assert Live(s, c) + [] == Live(s, c);
    AfterFaithful(s, accepted, c, c.key, c.limit, c.window, now);
    KeptWithinLimit(Live(s, c), accepted + Hit(s, c, c.key), c.limit, c.window, c.now);
  }

  lemma {:induction false} KeptWithinLimit(bucket: Times, accepted: Times, limit: nat, window: real, now: real)
    requires Kept(bucket, accepted, limit, window, now)
    ensures |bucket| <= limit
  {}

  /**
    A refused client that comes back no sooner than told, nothing else of its key having been
    accepted, is let through.
  */
  lemma {:induction false} RetryAccepted(s: Limiter, accepted: Times, c: Call, between: seq<Call>, again: Call,
                                         now: real)
    requires Kept(Bucket(s.hits, c.key), accepted, c.limit, c.window, now) && now <= c.now && 0.0 <= c.window <= MEMORY
    requires c.limit > 0 && !Admits(s, c)
    requires Accepted(After(s, c), between, c.key) == []
    requires again == c.(now := again.now) && again.now >= c.now + RetryAfter(s, c) as real
    ensures Admits(Replay(After(s, c), between), again)
  {
    hide Kept, Swept, After, Bucket, DropOld, SuffixOf, RetryAfter, Replay, Accepted;
    RetryLongEnough(s, c);
    var t := Replay(After(s, c), between);
    LiveWithinLimit(s, accepted, c, now);
    BucketShrinks(After(s, c), between, c.key);
    SweptShrinks(t, again.now, c.key);
    SuffixTransitive(Bucket(Swept(t, again.now).hits, c.key), Bucket(t.hits, c.key), Live(s, c));
    RoomAgain(Live(s, c), Bucket(Swept(t, again.now).hits, c.key), c.limit, again.now - c.window);
  }

  lemma {:induction false} RetryLongEnough(s: Limiter, c: Call)
    requires Live(s, c) != []
    ensures c.now + RetryAfter(s, c) as real > Live(s, c)[0] + c.window
  {
    hide DropOld, Swept, Bucket;
    var x := Live(s, c)[0] + c.window - c.now;
    assert x < x.Floor as real + 1.0;
  }

  lemma {:induction false} SweptShrinks(s: Limiter, now: real, key: Key)
    ensures SuffixOf(Bucket(Swept(s, now).hits, key), Bucket(s.hits, key))
  {
    hide DropOld;
    SweptBucket(s, now, key);
    DropsPrefix(Bucket(s.hits, key), now - MEMORY);
  }

  lemma {:induction false} ProperPrefix(calls: seq<Call>, c: Call)
    requires Proper(calls + [c], c.key, c.limit, c.window, 0.0)
    ensures Proper(calls, c.key, c.limit, c.window, 0.0) && 0.0 <= c.now && forall d :: d in calls ==> d.now <= c.now
  {
    var all := calls + [c];
    assert all[|calls|] == c;
    forall i | 0 <= i < |calls| ensures calls[i] == all[i] && all[i].now <= all[|calls|].now {}
  }

  /** The same for a limiter that started empty. */
  lemma {:induction false} RetryHonoured(calls: seq<Call>, c: Call, between: seq<Call>, again: Call)
    requires Proper(calls + [c], c.key, c.limit, c.window, 0.0) && 0.0 <= c.window <= MEMORY && c.limit > 0
    requires !Admits(Replay(FRESH, calls), c)
    requires Accepted(After(Replay(FRESH, calls), c), between, c.key) == []
    requires again == c.(now := again.now) && again.now >= c.now + RetryAfter(Replay(FRESH, calls), c) as real
    ensures Admits(Replay(After(Replay(FRESH, calls), c), between), again)
  {
    hide Kept, Swept, After, Bucket, Proper, Accepted, Replay, RetryAfter, Admits;
    ProperPrefix(calls, c);
    FreshRun(calls, c.key, c.limit, c.window, c.now);
    RetryAccepted(Replay(FRESH, calls), Accepted(FRESH, calls, c.key), c, between, again, c.now);
  }

  // ------------------------------------------------------------------ exactness

  /** The accepted hits, by number, that are no older than `from`. */
  ghost function InWindow(accepted: Times, from: real): set<nat> {
    set i | 0 <= i < |accepted| && accepted[i] >= from
  }

  ghost function Range(lo: nat, hi: nat): (r: set<nat>)
    requires lo <= hi
    ensures |r| == hi - lo && forall i :: i in r <==> lo <= i < hi
  {
    if lo == hi then {} else Range(lo, hi - 1) + {hi - 1}
  }

  lemma {:induction false} SuffixCount(live: Times, accepted: Times, from: real)
    requires SuffixOf(live, accepted) && Rising(accepted) && Before(accepted, |accepted| - |live|, from)
    requires live != [] ==> live[0] >= from
    ensures |InWindow(accepted, from)| == |live|
  {
    var d := |accepted| - |live|;
    forall i | d <= i < |accepted| ensures accepted[i] >= from {
      assert accepted[d] == live[0] && (d < i ==> accepted[d] <= accepted[i]);
    }
    assert InWindow(accepted, from) == Range(d, |accepted|);
  }

  /** The hits a call sees are all the accepted ones of its window. */
  lemma {:induction false} LiveExactly(s: Limiter, accepted: Times, c: Call, now: real)
    requires Kept(Bucket(s.hits, c.key), accepted, c.limit, c.window, now) && now <= c.now && 0.0 <= c.window <= MEMORY
    ensures Kept(Live(s, c), accepted, c.limit, c.window, c.now)
    ensures |InWindow(accepted, c.now - c.window)| == |Live(s, c)|
  {
    hide Swept, Bucket, DropOld, SuffixOf, Rising, UpTo, Before, Spaced, InWindow;
    var swept := Bucket(Swept(s, c.now).hits, c.key);
    SweptBucket(s, c.now, c.key);
    KeptLater(Bucket(s.hits, c.key), accepted, c.limit, c.window, now, c.now);
    BucketLive(Bucket(s.hits, c.key), swept, accepted, c.limit, c.window, c.now);
    DropsPrefix(swept, c.now - c.window);
    SuffixCount(Live(s, c), accepted, c.now - c.window);
  }

  /** A call is let through exactly when fewer than its limit were in the window that ends with it. */
  lemma {:induction false} AdmitsExactly(calls: seq<Call>, c: Call)
    requires Proper(calls + [c], c.key, c.limit, c.window, 0.0) && 0.0 <= c.window <= MEMORY
    ensures Admits(Replay(FRESH, calls), c) <==>
            |InWindow(Accepted(FRESH, calls, c.key), c.now - c.window)| < c.limit
  {
    hide Kept, Live, Bucket, Proper, Accepted, Replay, InWindow;
    ProperPrefix(calls, c);
    FreshRun(calls, c.key, c.limit, c.window, c.now);
    LiveExactly(Replay(FRESH, calls), Accepted(FRESH, calls, c.key), c, c.now);
  }

  lemma {:induction false} StillInWindow(accepted: Times, live: Times, from: real, later: real)
    requires SuffixOf(live, accepted) && Rising(accepted) && live != [] && live[0] >= later
    ensures |InWindow(accepted, later)| >= |live|
  {
    var d := |accepted| - |live|;
    forall i | d <= i < |accepted| ensures accepted[i] >= later {
      assert accepted[d] == live[0] && (d < i ==> accepted[d] <= accepted[i]);
    }
    SubsetSize(Range(d, |accepted|), InWindow(accepted, later));
  }

  lemma {:induction false} RetryInTime(oldest: real, window: real, now: real, again: real)
    requires oldest + window >= now && again <= now + (Retry(oldest, window, now) - 1) as real
    ensures oldest >= again - window
  {
    var x := oldest + window - now;
    assert x.Floor as real <= x && x.Floor >= 0;
  }

  /** The time of a refusal is tight: one second less, and the client is refused again, even if nobody else came. */
  lemma {:induction false} RetryTight(s: Limiter, accepted: Times, c: Call, between: seq<Call>, again: Call, now: real)
    requires Kept(Bucket(s.hits, c.key), accepted, c.limit, c.window, now) && now <= c.now && 0.0 <= c.window <= MEMORY
    requires c.limit > 0 && !Admits(s, c)
    requires Accepted(After(s, c), between, c.key) == []
    requires Proper(between + [again], c.key, c.limit, c.window, c.now) && again == c.(now := again.now)
    requires again.now <= c.now + (RetryAfter(s, c) - 1) as real
    ensures !Admits(Replay(After(s, c), between), again)
  {
    hide Swept, After, Bucket, DropOld, Replay, Accepted, Retry, InWindow, Proper, Spaced;
    var t := Replay(After(s, c), between);
    LiveExactly(s, accepted, c, now);
    DropsPrefix(Bucket(Swept(s, c.now).hits, c.key), c.now - c.window);
    RetryInTime(Live(s, c)[0], c.window, c.now, again.now);
    StillInWindow(accepted, Live(s, c), c.now - c.window, again.now - c.window);
    KeptOverRefusals(s, accepted, c, between, again, now);
    hide Kept;
    LiveExactly(t, accepted, again, again.now);
  }

  lemma {:induction false} KeptOverRefusals(s: Limiter, accepted: Times, c: Call, between: seq<Call>, again: Call,
                                            now: real)
    requires Kept(Bucket(s.hits, c.key), accepted, c.limit, c.window, now) && now <= c.now && 0.0 <= c.window <= MEMORY
    requires !Admits(s, c) && Accepted(After(s, c), between, c.key) == []
    requires Proper(between + [again], c.key, c.limit, c.window, c.now)
    ensures Kept(Bucket(Replay(After(s, c), between).hits, c.key), accepted, c.limit, c.window, again.now)
  {
    hide Kept, After, Bucket, Replay, Accepted, Admits;
    var all := between + [again];
    assert all[|between|] == again;
    forall i | 0 <= i < |between| ensures between[i] == all[i] && all[i].now <= all[|between|].now {}
    AfterFaithful(s, accepted, c, c.key, c.limit, c.window, now);
    assert accepted + [] == accepted;
    RunFaithful(After(s, c), accepted, between, c.key, c.limit, c.window, c.now, again.now);
  }
}
