/**
  The hits table all workers share: the limiter, the content guard and the nonces of
  signed requests add rows to it, and the limiter now and then deletes old ones.
*/
module HitStore {
  import opened Windows

  /** The users of the table keep their keys apart by prefix. */
  datatype Key =
    | Client(rule: string, address: string)
    | Reader(kind: string, user: nat)
    | BadSignatures(user: nat)
    | Nonce(nonce: string)

  type Hits = map<Key, Times>

  /**
    A request as far as its shield headers go: `complete` says that its epoch is a number and a
    signature is present, `signed` is the outcome of the signature comparison.
  */
  datatype Request = Request(complete: bool, epoch: int, nonce: string, signed: bool)

  predicate NonceChar(c: char) {
    'A' <= c <= 'Z' || 'a' <= c <= 'z' || '0' <= c <= '9' || c == '_' || c == '-'
  }

  /** The pattern a nonce has to match as a whole. */
  predicate LegalNonce(nonce: string) {
    16 <= |nonce| <= 64 && forall i :: 0 <= i < |nonce| ==> NonceChar(nonce[i])
  }

  predicate WellFormed(r: Request) {
    r.complete && LegalNonce(r.nonce)
  }

  datatype Op =
    | Allow(client: Key, limit: nat, window: real)   // _allow_shared
    | Count(key: Key)                                // _count_and_add
    | Verify(request: Request, checkedAt: real)      // verify: the epoch is read at checkedAt

  /** One transaction on the table, at the time its clock was read. */
  datatype Event = Event(op: Op, now: real)

  datatype Answer = Admitted | Refused(retry: int) | Counted(n: nat)
                  | Accepted | Missing | Expired | BadSignature | Replayed

  function Rows(hits: Hits, key: Key): Times {
    if key in hits then hits[key] else []
  }

  function Inserted(hits: Hits, key: Key, now: real): Hits {
    hits[key := Rows(hits, key) + [now]]
  }

  /** In the first second of each minute the hits older than an hour are deleted, whatever their key. */
  function Cleaned(hits: Hits, now: real): Hits {
    if now.Floor % 60 == 0 then map key | key in hits :: Since(hits[key], now - MEMORY) else hits
  }

  function EpochAt(now: real): int {
    (now / EPOCH).Floor
  }

  predicate InTime(r: Request, checkedAt: real) {
    r.epoch == EpochAt(checkedAt) || r.epoch == EpochAt(checkedAt) - 1
  }

  function Smallest(ts: Times): real
    requires ts != []
  {
    if |ts| == 1 then ts[0] else if ts[0] <= Smallest(ts[1..]) then ts[0] else Smallest(ts[1..])
  }

  datatype Stepped = Stepped(hits: Hits, answer: Answer)

  function StepAllow(hits: Hits, client: Key, limit: nat, window: real, now: real): Stepped
    requires limit > 0
  {
    var kept := Cleaned(hits, now);
    var live := Since(Rows(kept, client), now - window);
    if |live| >= limit then Stepped(kept, Refused(Retry(Smallest(live), window, now)))
    else Stepped(Inserted(kept, client, now), Admitted)
  }

  function StepCount(hits: Hits, key: Key, now: real): Stepped {
    Stepped(Inserted(hits, key, now), Counted(|Since(Rows(hits, key), now - MEMORY)|))
  }

  function StepVerify(hits: Hits, r: Request, checkedAt: real, now: real): Stepped {
    if !WellFormed(r) then Stepped(hits, Missing)
    else if !InTime(r, checkedAt) then Stepped(hits, Expired)
    else if !r.signed then Stepped(hits, BadSignature)
    else
      var counted := StepCount(hits, Nonce(r.nonce), now);
      Stepped(counted.hits, if counted.answer.n > 0 then Replayed else Accepted)
  }

  /** rate_limited lets a rule with no limit through before the table is asked. */
  function Step(hits: Hits, ev: Event): Stepped {
    match ev.op
    case Allow(client, limit, window) =>
      if limit == 0 then Stepped(hits, Admitted) else StepAllow(hits, client, limit, window, ev.now)
    case Count(key) => StepCount(hits, key, ev.now)
    case Verify(r, checkedAt) => StepVerify(hits, r, checkedAt, ev.now)
  }

  ghost function Replay(hits: Hits, events: seq<Event>): Hits
    decreases |events|
  {
    if events == [] then hits else Replay(Step(hits, events[0]).hits, events[1..])
  }

  ghost function AnswerAt(hits: Hits, events: seq<Event>, i: nat): Answer
    requires i < |events|
  {
    Step(Replay(hits, events[..i]), events[i]).answer
  }

  ghost predicate Clocked(events: seq<Event>) {
    forall i, j :: 0 <= i < j < |events| ==> events[i].now <= events[j].now
  }

  // ------------------------------------------------------------ what is kept

  lemma {:induction false} SinceMember(ts: Times, cutoff: real, t: real)
    ensures t in Since(ts, cutoff) <==> t in ts && t >= cutoff
  {
    if ts != [] {
      SinceMember(ts[1..], cutoff, t);
      assert ts == [ts[0]] + ts[1..];
    }
  }

  lemma {:induction false} CleanedRows(hits: Hits, now: real, key: Key)
    ensures Rows(Cleaned(hits, now), key) == Rows(hits, key)
         || Rows(Cleaned(hits, now), key) == Since(Rows(hits, key), now - MEMORY)
  {}

  /** A hit less than an hour old survives any transaction. */
  lemma {:induction false} StepRemembers(hits: Hits, ev: Event, key: Key, t: real)
    requires t in Rows(hits, key) && ev.now <= t + MEMORY
    ensures t in Rows(Step(hits, ev).hits, key)
  {
    CleanedRows(hits, ev.now, key);
    SinceMember(Rows(hits, key), ev.now - MEMORY, t);
    hide Since, Cleaned, Smallest, Retry, EpochAt;
  }

  lemma {:induction false} Remembered(hits: Hits, events: seq<Event>, key: Key, t: real)
    requires t in Rows(hits, key) && forall ev :: ev in events ==> ev.now <= t + MEMORY
    ensures t in Rows(Replay(hits, events), key)
    decreases |events|
  {
    if events != [] {
      assert events[0] in events && forall ev :: ev in events[1..] ==> ev in events;
      StepRemembers(hits, events[0], key, t);
      hide Step, Rows;
      Remembered(Step(hits, events[0]).hits, events[1..], key, t);
    }
  }

  lemma {:induction false} ReplayAppend(hits: Hits, a: seq<Event>, b: seq<Event>)
    ensures Replay(hits, a + b) == Replay(Replay(hits, a), b)
    decreases |a|
  {
    hide Step;
    if a == [] {
      assert a + b == b;
    } else {
      assert (a + b)[0] == a[0] && (a + b)[1..] == a[1..] + b;
      ReplayAppend(Step(hits, a[0]).hits, a[1..], b);
    }
  }

  // ---------------------------------------------------------- single acceptance

  predicate AcceptedNonce(ev: Event, answer: Answer, nonce: string) {
    ev.op.Verify? && ev.op.request.nonce == nonce && answer == Accepted
  }

  /** An accepted request leaves its mark, and found none younger than an hour. */
  lemma {:induction false} AcceptedMarks(hits: Hits, ev: Event, nonce: string)
    requires AcceptedNonce(ev, Step(hits, ev).answer, nonce)
    ensures ev.now in Rows(Step(hits, ev).hits, Nonce(nonce))
    ensures forall t :: t in Rows(hits, Nonce(nonce)) ==> t < ev.now - MEMORY
    ensures InTime(ev.op.request, ev.op.checkedAt)
  {
    hide EpochAt;
    var key := Nonce(nonce);
    forall t | t in Rows(hits, key) ensures t < ev.now - MEMORY {
      SinceMember(Rows(hits, key), ev.now - MEMORY, t);
      assert |Since(Rows(hits, key), ev.now - MEMORY)| == 0;
    }
    assert (Rows(hits, key) + [ev.now])[|Rows(hits, key)|] == ev.now;
  }

  /**
    Two accepted requests with one nonce, whatever their epochs and whatever else happens, are more
    than an hour apart.
  */
  lemma {:induction false} AcceptedApart(hits: Hits, events: seq<Event>, i: nat, j: nat, nonce: string)
    requires Clocked(events) && i < j < |events|
    requires AcceptedNonce(events[i], AnswerAt(hits, events, i), nonce)
    requires AcceptedNonce(events[j], AnswerAt(hits, events, j), nonce)
    ensures events[j].now - events[i].now > MEMORY
  {
    hide Step, Rows, AcceptedNonce, InTime;
    var before, after := Replay(hits, events[..i]), Replay(hits, events[..i + 1]);
    var t := events[i].now;
    AcceptedMarks(before, events[i], nonce);
    assert events[..i + 1] == events[..i] + [events[i]] && events[..j] == events[..i + 1] + events[i + 1..j];
    ReplayAppend(hits, events[..i], [events[i]]);
    assert [events[i]][1..] == [];
    assert Replay(before, [events[i]]) == Step(before, events[i]).hits;
    ReplayAppend(hits, events[..i + 1], events[i + 1..j]);
    AcceptedMarks(Replay(hits, events[..j]), events[j], nonce);
    if events[j].now <= t + MEMORY {
      forall ev | ev in events[i + 1..j] ensures ev.now <= t + MEMORY {
        var k :| i + 1 <= k < j && events[k] == ev;
      }
      Remembered(after, events[i + 1..j], Nonce(nonce), t);
    }
  }

  /** Each verification counts the nonce within `delay` seconds of checking the epoch. */
  ghost predicate Prompt(events: seq<Event>, delay: real) {
    forall i :: 0 <= i < |events| && events[i].op.Verify? ==>
      events[i].op.checkedAt <= events[i].now <= events[i].op.checkedAt + delay
  }

  ghost predicate AtMostOnce(events: seq<Event>) {
    forall i, j, nonce :: 0 <= i < j < |events|
      && AcceptedNonce(events[i], AnswerAt(map[], events, i), nonce)
      && AcceptedNonce(events[j], AnswerAt(map[], events, j), nonce)
      ==> events[i].op.request.epoch != events[j].op.request.epoch
  }

  const SLACK := 2400.0

  lemma {:induction false} EpochBounds(e: int, checkedAt: real)
    requires e == EpochAt(checkedAt) || e == EpochAt(checkedAt) - 1
    ensures e as real * EPOCH <= checkedAt < (e + 2) as real * EPOCH
  {
    var q := checkedAt / EPOCH;
    assert q.Floor as real <= q < q.Floor as real + 1.0;
    assert checkedAt == q * EPOCH;
  }

  lemma {:induction false} PromptOnce(events: seq<Event>, delay: real)
    requires Clocked(events) && Prompt(events, delay) && delay <= SLACK
    ensures AtMostOnce(events)
  {
    hide Step, EpochAt, Replay;
    forall i, j, nonce | 0 <= i < j < |events|
      && AcceptedNonce(events[i], AnswerAt(map[], events, i), nonce)
      && AcceptedNonce(events[j], AnswerAt(map[], events, j), nonce)
      ensures events[i].op.request.epoch != events[j].op.request.epoch
    {
      AcceptedApart(map[], events, i, j, nonce);
      AcceptedMarks(Replay(map[], events[..i]), events[i], nonce);
      AcceptedMarks(Replay(map[], events[..j]), events[j], nonce);
      EpochBounds(events[i].op.request.epoch, events[i].op.checkedAt);
      EpochBounds(events[j].op.request.epoch, events[j].op.checkedAt);
    }
  }

  const NONCE := "0123456789abcdef"

  /** The same signed request, counted once at 0 s and once after the table has forgotten it. */
  ghost function SlowTwice(delay: real): seq<Event> {
    var r := Request(true, 0, NONCE, true);
    var checked := if delay > MEMORY then 0.0 else 2400.0 - delay / 2.0;
    [Event(Verify(r, 0.0), 0.0), Event(Verify(r, checked), checked + delay)]
  }

  lemma {:induction false} SlowTwiceAccepted(delay: real)
    requires delay > SLACK
    ensures Clocked(SlowTwice(delay)) && Prompt(SlowTwice(delay), delay) && !AtMostOnce(SlowTwice(delay))
  {
    var events := SlowTwice(delay);
    var first, second := events[0], events[1];
    var checked := second.op.checkedAt;
    assert 0.0 <= checked < 1200.0 && second.now > MEMORY;
    assert EpochAt(0.0) == 0;
    assert |NONCE| == 16 && LegalNonce(NONCE);
    assert events[..0] == [] && events[..1] == [first];
    assert Rows(map[], Nonce(NONCE)) == [] && Since([], 0.0 - MEMORY) == [];
    assert StepCount(map[], Nonce(NONCE), 0.0).answer == Counted(0);
    assert Inserted(map[], Nonce(NONCE), 0.0) == map[Nonce(NONCE) := [0.0]] by { assert [] + [0.0] == [0.0]; }
    assert Step(map[], first) == Stepped(map[Nonce(NONCE) := [0.0]], Accepted);
    assert [first][1..] == [] && Replay(map[], [first]) == map[Nonce(NONCE) := [0.0]];
    assert Since([0.0], second.now - MEMORY) == [];
    assert AcceptedNonce(first, AnswerAt(map[], events, 0), NONCE);
    assert AcceptedNonce(second, AnswerAt(map[], events, 1), NONCE);
  }

  /**
    A request signed for an epoch and a nonce is accepted at most once in every run exactly
    when no verification takes longer than 2400 s from its epoch check to its nonce count:
    the hour of memory less the two epochs of validity.
  */
  lemma {:induction false} SingleAcceptance(delay: real)
    requires delay >= 0.0
    ensures (forall events :: Clocked(events) && Prompt(events, delay) ==> AtMostOnce(events)) <==> delay <= SLACK
  {
    hide Clocked, Prompt, AtMostOnce, SlowTwice;
    if delay <= SLACK {
      forall events | Clocked(events) && Prompt(events, delay) ensures AtMostOnce(events) { PromptOnce(events, delay); }
    } else {
      SlowTwiceAccepted(delay);
    }
  }

  // ------------------------------------------------------------ shared limiter

  /** The table holds a client's accepted hits but for some first ones, all older than an hour. */
  ghost predicate Held(rows: Times, accepted: Times, limit: nat, window: real, now: real) {
    && SuffixOf(rows, accepted) && Rising(accepted) && UpTo(accepted, |accepted|, now)
    && Before(accepted, |accepted| - |rows|, now - MEMORY)
    && Spaced(accepted, limit, window)
  }

  lemma {:induction false} RisingSuffix(a: Times, b: Times)
    requires SuffixOf(a, b) && Rising(b)
    ensures Rising(a)
  {}

  lemma {:induction false} DropKeepsBefore(rows: Times, accepted: Times, cutoff: real)
    requires SuffixOf(rows, accepted) && Before(accepted, |accepted| - |rows|, cutoff)
    ensures SuffixOf(DropOld(rows, cutoff), accepted)
    ensures Before(accepted, |accepted| - |DropOld(rows, cutoff)|, cutoff)
  {
    hide DropOld;
    DropsPrefix(rows, cutoff);
    var live := DropOld(rows, cutoff);
    forall i | 0 <= i < |accepted| - |live| ensures accepted[i] < cutoff {
      if i >= |accepted| - |rows| { assert accepted[i] == rows[i - (|accepted| - |rows|)]; }
    }
  }

  lemma {:induction false} BeforeLater(ts: Times, k: nat, bound: real, later: real)
    requires k <= |ts| && Before(ts, k, bound) && bound <= later
    ensures Before(ts, k, later)
  {}

  lemma {:induction false} UpToLater(ts: Times, bound: real, later: real)
    requires UpTo(ts, |ts|, bound) && bound <= later
    ensures UpTo(ts, |ts|, later)
  {}

  lemma {:induction false} HeldCleaned(rows: Times, accepted: Times, limit: nat, window: real, now: real, later: real)
    requires Held(rows, accepted, limit, window, now) && now <= later
    ensures Held(rows, accepted, limit, window, later)
         && Held(Since(rows, later - MEMORY), accepted, limit, window, later)
  {
    hide SuffixOf, Rising, UpTo, Before, Spaced, DropOld, Since;
    SuffixShorter(rows, accepted);
    RisingSuffix(rows, accepted);
    SinceIsDropOld(rows, later - MEMORY);
    BeforeLater(accepted, |accepted| - |rows|, now - MEMORY, later - MEMORY);
    UpToLater(accepted, now, later);
    DropKeepsBefore(rows, accepted, later - MEMORY);
  }

  lemma {:induction false} AdmittedSpaced(rows: Times, accepted: Times, limit: nat, window: real, now: real)
    requires Held(rows, accepted, limit, window, now) && 0.0 <= window <= MEMORY
    requires |Since(rows, now - window)| < limit
    ensures Spaced(accepted + [now], limit, window)
  {
    hide SuffixOf, Rising, UpTo, Before, Spaced, DropOld, Since;
    var live := Since(rows, now - window);
    SuffixShorter(rows, accepted);
    RisingSuffix(rows, accepted);
    SinceIsDropOld(rows, now - window);
    BeforeLater(accepted, |accepted| - |rows|, now - MEMORY, now - window);
    DropKeepsBefore(rows, accepted, now - window);
    SuffixShorter(live, accepted);
    SpacedAppend(accepted, |accepted| - |live|, limit, window, now);
  }

  lemma {:induction false} HeldAdmitted(rows: Times, accepted: Times, limit: nat, window: real, now: real)
    requires Held(rows, accepted, limit, window, now) && 0.0 <= window <= MEMORY
    requires |Since(rows, now - window)| < limit
    ensures Held(rows + [now], accepted + [now], limit, window, now)
  {
    AdmittedSpaced(rows, accepted, limit, window, now);
    hide SuffixOf, Rising, UpTo, Before, Spaced, Since;
    SuffixShorter(rows, accepted);
    SuffixAppend(rows, accepted, now);
    RisingAppend(accepted, now);
    BeforeAppend(accepted, |accepted| - |rows|, now - MEMORY, now);
  }

  /** A client key is only ever written by the limiter, with one rule. */
  predicate OneRule(ev: Event, client: Key, limit: nat, window: real) {
    client.Client? && match ev.op
    case Allow(c, l, w) => c == client ==> l == limit && w == window
    case Count(key) => key != client
    case Verify(_, _) => true
  }

  ghost function HitOf(hits: Hits, ev: Event, client: Key): Times {
    if ev.op.Allow? && ev.op.client == client && Step(hits, ev).answer == Admitted then [ev.now] else []
  }

  ghost function AdmittedTimes(hits: Hits, events: seq<Event>, client: Key): Times
    decreases |events|
  {
    if events == [] then []
    else HitOf(hits, events[0], client) + AdmittedTimes(Step(hits, events[0]).hits, events[1..], client)
  }

  lemma {:induction false} StepRows(hits: Hits, ev: Event, client: Key, limit: nat, window: real)
    requires OneRule(ev, client, limit, window) && limit > 0
    ensures var rows := Rows(Cleaned(hits, ev.now), client);
            if ev.op.Allow? && ev.op.client == client then
              Rows(Step(hits, ev).hits, client) == rows + HitOf(hits, ev, client)
              && (HitOf(hits, ev, client) == if |Since(rows, ev.now - window)| < limit then [ev.now] else [])
            else
              HitOf(hits, ev, client) == []
              && (Rows(Step(hits, ev).hits, client) == rows || Rows(Step(hits, ev).hits, client) == Rows(hits, client))
  {
    hide Since, Cleaned, Smallest, Retry, EpochAt;
    var rows := Rows(Cleaned(hits, ev.now), client);
    assert rows + [] == rows;
  }

  lemma {:induction false} StepHeld(hits: Hits, accepted: Times, ev: Event, client: Key, limit: nat, window: real,
                                    now: real)
    requires Held(Rows(hits, client), accepted, limit, window, now) && now <= ev.now
    requires 0.0 <= window <= MEMORY && limit > 0
    requires OneRule(ev, client, limit, window)
    ensures Held(Rows(Step(hits, ev).hits, client), accepted + HitOf(hits, ev, client), limit, window, ev.now)
  {
    var rows := Rows(Cleaned(hits, ev.now), client);
    StepRows(hits, ev, client, limit, window);
    CleanedRows(hits, ev.now, client);
    hide Held, Rows, Cleaned, Since, Step, HitOf, OneRule;
    HeldCleaned(Rows(hits, client), accepted, limit, window, now, ev.now);
    assert Held(rows, accepted, limit, window, ev.now);
    assert accepted + [] == accepted && rows + [] == rows;
    if |Since(rows, ev.now - window)| < limit { HeldAdmitted(rows, accepted, limit, window, ev.now); }
  }

  ghost predicate Ruled(events: seq<Event>, client: Key, limit: nat, window: real, start: real) {
    && (forall i :: 0 <= i < |events| ==> OneRule(events[i], client, limit, window) && start <= events[i].now)
    && Clocked(events)
  }

  lemma {:induction false} RuledTail(events: seq<Event>, client: Key, limit: nat, window: real, start: real)
    requires Ruled(events, client, limit, window, start) && events != []
    ensures OneRule(events[0], client, limit, window) && start <= events[0].now
    ensures Ruled(events[1..], client, limit, window, events[0].now)
  {
    hide OneRule;
  }

  lemma {:induction false} RunHeld(hits: Hits, accepted: Times, events: seq<Event>, client: Key, limit: nat,
                                   window: real, now: real)
    requires Held(Rows(hits, client), accepted, limit, window, now) && 0.0 <= window <= MEMORY && limit > 0
    requires Ruled(events, client, limit, window, now)
    ensures Spaced(accepted + AdmittedTimes(hits, events, client), limit, window)
    decreases |events|
  {
    hide Held, Rows, Step, HitOf, Ruled, OneRule, Spaced;
    if events == [] {
      HeldSpaced(Rows(hits, client), accepted, limit, window, now);
      assert accepted + [] == accepted;
    } else {
      var ev := events[0];
      RuledTail(events, client, limit, window, now);
      StepHeld(hits, accepted, ev, client, limit, window, now);
      var next := accepted + HitOf(hits, ev, client);
      RunHeld(Step(hits, ev).hits, next, events[1..], client, limit, window, ev.now);
      assert accepted + AdmittedTimes(hits, events, client)
          == next + AdmittedTimes(Step(hits, ev).hits, events[1..], client);
    }
  }

  lemma {:induction false} HeldSpaced(rows: Times, accepted: Times, limit: nat, window: real, now: real)
    requires Held(rows, accepted, limit, window, now)
    ensures Spaced(accepted, limit, window)
  {}

  /** Over all workers: no interval of a client's window holds more admitted requests than its limit. */
  lemma {:induction false} SharedLimit(events: seq<Event>, client: Key, limit: nat, window: real, start: real)
    requires Ruled(events, client, limit, window, start) && 0.0 <= window <= MEMORY && limit > 0
    ensures Spaced(AdmittedTimes(map[], events, client), limit, window)
  {
    assert Held([], [], limit, window, start);
    assert Rows(map[], client) == [];
    hide Held, Rows, Step, HitOf, Ruled, OneRule, Spaced;
    RunHeld(map[], [], events, client, limit, window, start);
    assert [] + AdmittedTimes(map[], events, client) == AdmittedTimes(map[], events, client);
  }

  // ----------------------------------------------------------------- long windows

  lemma {:induction false} AdmittedAppend(hits: Hits, a: seq<Event>, b: seq<Event>, client: Key)
    ensures AdmittedTimes(hits, a + b, client)
         == AdmittedTimes(hits, a, client) + AdmittedTimes(Replay(hits, a), b, client)
    decreases |a|
  {
    hide Step, HitOf;
    if a == [] {
      assert a + b == b;
    } else {
      assert (a + b)[0] == a[0] && (a + b)[1..] == a[1..] + b;
      AdmittedAppend(Step(hits, a[0]).hits, a[1..], b, client);
    }
  }

  /** A client's full allowance at one instant ... */
  ghost function Burst(client: Key, limit: nat, window: real, n: nat): seq<Event> {
    Repeat(Event(Allow(client, limit, window), 0.0), n)
  }

  /** ... and once more a little after the hour, in a second in which the table is cleaned. */
  ghost function CleanedEarly(client: Key, limit: nat, window: real): seq<Event> {
    Burst(client, limit, window, limit) + [Event(Allow(client, limit, window), JustAfter(window))]
  }

  function JustAfter(window: real): real {
    if window < MEMORY + 0.5 then window else MEMORY + 0.5
  }

  lemma {:induction false} SinceRepeat(n: nat, t: real, cutoff: real)
    ensures Since(Repeat(t, n), cutoff) == if t < cutoff then [] else Repeat(t, n)
  {
    if n > 0 {
      assert Repeat(t, n)[1..] == Repeat(t, n - 1);
      SinceRepeat(n - 1, t, cutoff);
    }
  }

  lemma {:induction false} BurstStep(hits: Hits, client: Key, limit: nat, window: real, held: nat)
    requires window > 0.0 && held < limit && Rows(hits, client) == Repeat(0.0, held)
    ensures var t := StepAllow(hits, client, limit, window, 0.0);
            t.answer == Admitted && Rows(t.hits, client) == Repeat(0.0, held + 1)
  {
    CleanedRows(hits, 0.0, client);
    SinceRepeat(held, 0.0, 0.0 - MEMORY);
    SinceRepeat(held, 0.0, 0.0 - window);
    hide Since, Cleaned, Smallest, Retry;
    RepeatMore(0.0, held);
  }

  lemma {:induction false} BurstAdmitted(hits: Hits, client: Key, limit: nat, window: real, n: nat, held: nat)
    requires window > 0.0 && held + n <= limit && Rows(hits, client) == Repeat(0.0, held)
    ensures AdmittedTimes(hits, Burst(client, limit, window, n), client) == Repeat(0.0, n)
    ensures Rows(Replay(hits, Burst(client, limit, window, n)), client) == Repeat(0.0, held + n)
    decreases n
  {
    hide StepAllow, Rows;
    if n > 0 {
      var ev := Event(Allow(client, limit, window), 0.0);
      var burst := Burst(client, limit, window, n);
      assert burst[0] == ev && burst[1..] == Burst(client, limit, window, n - 1);
      BurstStep(hits, client, limit, window, held);
      BurstAdmitted(Step(hits, ev).hits, client, limit, window, n - 1, held + 1);
    }
  }

  lemma {:induction false} LastAdmitted(hits: Hits, client: Key, limit: nat, window: real)
    requires window > MEMORY && limit > 0 && Rows(hits, client) == Repeat(0.0, limit)
    ensures StepAllow(hits, client, limit, window, JustAfter(window)).answer == Admitted
  {
    SinceRepeat(limit, 0.0, JustAfter(window) - MEMORY);
    assert Rows(Cleaned(hits, JustAfter(window)), client) == [];
    assert Since([], JustAfter(window) - window) == [];
  }

  lemma {:induction false} CleanedEarlyLeaks(client: Key, limit: nat, window: real)
    requires limit > 0 && window > MEMORY && client.Client?
    ensures Ruled(CleanedEarly(client, limit, window), client, limit, window, 0.0)
    ensures !Spaced(AdmittedTimes(map[], CleanedEarly(client, limit, window), client), limit, window)
  {
    var burst, last := Burst(client, limit, window, limit), Event(Allow(client, limit, window), JustAfter(window));
    assert Rows(map[], client) == Repeat(0.0, 0);
    BurstAdmitted(map[], client, limit, window, limit, 0);
    LastAdmitted(Replay(map[], burst), client, limit, window);
    hide Rows, StepAllow, Replay, Ruled, Spaced;
    AdmittedAppend(map[], burst, [last], client);
    LastTime(Replay(map[], burst), last, client);
    TooClose(limit, window, JustAfter(window));
    CleanedEarlyRuled(client, limit, window);
  }

  lemma {:induction false} LastTime(hits: Hits, ev: Event, client: Key)
    requires HitOf(hits, ev, client) == [ev.now]
    ensures AdmittedTimes(hits, [ev], client) == [ev.now]
  {
    hide Step, HitOf;
    assert [ev][1..] == [];
    assert [ev.now] + [] == [ev.now];
  }

  lemma {:induction false} TooClose(limit: nat, window: real, late: real)
    requires limit > 0 && late <= window
    ensures !Spaced(Repeat(0.0, limit) + [late], limit, window)
  {
    var all := Repeat(0.0, limit) + [late];
    assert all[limit] - all[0] <= window;
  }

  lemma {:induction false} CleanedEarlyRuled(client: Key, limit: nat, window: real)
    requires client.Client? && window > MEMORY
    ensures Ruled(CleanedEarly(client, limit, window), client, limit, window, 0.0)
  {}

  /**
    The shared store keeps a client within its limit in every window exactly for windows up to the
    hour it remembers.
  */
  lemma {:induction false} SharedExact(client: Key, limit: nat, window: real)
    requires limit > 0 && window > 0.0 && client.Client?
    ensures (forall events :: Ruled(events, client, limit, window, 0.0) ==>
               Spaced(AdmittedTimes(map[], events, client), limit, window))
       <==> window <= MEMORY
  {
    hide Ruled, Spaced, CleanedEarly;
    if window <= MEMORY {
      forall events | Ruled(events, client, limit, window, 0.0)
        ensures Spaced(AdmittedTimes(map[], events, client), limit, window)
      {
        SharedLimit(events, client, limit, window, 0.0);
      }
    } else {
      CleanedEarlyLeaks(client, limit, window);
    }
  }

  // ----------------------------------------------------------------- retrying

  lemma {:induction false} SinceThins(ts: Times, early: real, late: real)
    ensures |Since(Since(ts, early), late)| <= |Since(ts, late)|
    ensures early <= late ==> |Since(ts, late)| <= |Since(ts, early)|
  {
    if ts != [] {
      SinceThins(ts[1..], early, late);
      if ts[0] >= early {
        assert Since(ts, early) == [ts[0]] + Since(ts[1..], early);
      } else {
        assert Since(ts, early) == Since(ts[1..], early);
      }
    }
  }

  /** A hit that has left the window is no longer counted. */
  lemma {:induction false} SinceLoses(ts: Times, early: real, late: real, t: real)
    requires t in ts && early <= t < late
    ensures |Since(ts, late)| < |Since(ts, early)|
  {
    SinceThins(ts[1..], early, late);
    if t in ts[1..] { SinceLoses(ts[1..], early, late, t); }
  }

  lemma {:induction false} SmallestMember(ts: Times)
    requires ts != []
    ensures Smallest(ts) in ts
  {
    if |ts| > 1 { SmallestMember(ts[1..]); }
  }

  /** While nothing is admitted for a client, its rows only get fewer. */
  lemma {:induction false} RowsThin(hits: Hits, events: seq<Event>, client: Key, limit: nat, window: real,
                                    start: real, late: real)
    requires Ruled(events, client, limit, window, start) && limit > 0 && AdmittedTimes(hits, events, client) == []
    ensures |Since(Rows(Replay(hits, events), client), late)| <= |Since(Rows(hits, client), late)|
    decreases |events|
  {
    hide Step, HitOf, Ruled, OneRule, Since, Rows;
    if events != [] {
      var ev := events[0];
      RuledTail(events, client, limit, window, start);
      StepRows(hits, ev, client, limit, window);
      CleanedRows(hits, ev.now, client);
      SinceThins(Rows(hits, client), ev.now - MEMORY, late);
      assert HitOf(hits, ev, client) == [] && AdmittedTimes(Step(hits, ev).hits, events[1..], client) == [];
      assert Rows(Cleaned(hits, ev.now), client) + [] == Rows(Cleaned(hits, ev.now), client);
      RowsThin(Step(hits, ev).hits, events[1..], client, limit, window, ev.now, late);
    }
  }

  lemma {:induction false} HeldWithinLimit(rows: Times, accepted: Times, limit: nat, window: real, now: real)
    requires Held(rows, accepted, limit, window, now) && 0.0 <= window <= MEMORY && limit > 0
    ensures |Since(rows, now - window)| <= limit
  {
    hide Spaced, Rising, Before, DropOld, Since;
    RisingSuffix(rows, accepted);
    SinceIsDropOld(rows, now - window);
    DropsPrefix(rows, now - window);
    var live := DropOld(rows, now - window);
    SuffixTransitive(live, rows, accepted);
    hide *;
    SpacedMeansBounded(accepted, limit, window, now - window, |accepted| - |live|, |live|);
  }

  /** What a refusal means: the table is at the limit, and its oldest live hit fixes the answer. */
  lemma {:induction false} RefusedAt(hits: Hits, client: Key, limit: nat, window: real, now: real)
    requires limit > 0 && StepAllow(hits, client, limit, window, now).answer.Refused?
    ensures var t := StepAllow(hits, client, limit, window, now);
            exists oldest :: oldest in Rows(t.hits, client) && now - window <= oldest
                          && oldest + window < now + t.answer.retry as real
    ensures StepAllow(hits, client, limit, window, now).hits == Cleaned(hits, now)
  {
    var rows := Rows(Cleaned(hits, now), client);
    var live := Since(rows, now - window);
    SmallestMember(live);
    var oldest := Smallest(live);
    SinceMember(rows, now - window, oldest);
    hide Since, Smallest, Cleaned, Rows;
    var x := oldest + window - now;
    assert x < x.Floor as real + 1.0;
  }

  lemma {:induction false} BelowLimitAdmits(hits: Hits, client: Key, limit: nat, window: real, now: real)
    requires limit > 0 && |Since(Rows(hits, client), now - window)| < limit
    ensures StepAllow(hits, client, limit, window, now).answer == Admitted
  {
    CleanedRows(hits, now, client);
    SinceThins(Rows(hits, client), now - MEMORY, now - window);
    hide Since, Rows, Cleaned, Smallest;
  }

  lemma {:induction false} HeldReached(hits: Hits, accepted: Times, events: seq<Event>, client: Key, limit: nat,
                                       window: real, now: real, end: real)
    requires Held(Rows(hits, client), accepted, limit, window, now) && 0.0 <= window <= MEMORY && limit > 0
    requires Ruled(events, client, limit, window, now) && now <= end && forall ev :: ev in events ==> ev.now <= end
    ensures Held(Rows(Replay(hits, events), client), accepted + AdmittedTimes(hits, events, client), limit, window, end)
    decreases |events|
  {
    hide Held, Rows, Step, HitOf, Ruled, OneRule, Since;
    if events == [] {
      HeldCleaned(Rows(hits, client), accepted, limit, window, now, end);
      assert accepted + [] == accepted;
    } else {
      var ev := events[0];
      assert ev in events && forall e :: e in events[1..] ==> e in events;
      RuledTail(events, client, limit, window, now);
      StepHeld(hits, accepted, ev, client, limit, window, now);
      var next := accepted + HitOf(hits, ev, client);
      HeldReached(Step(hits, ev).hits, next, events[1..], client, limit, window, ev.now, end);
      assert accepted + AdmittedTimes(hits, events, client)
          == next + AdmittedTimes(Step(hits, ev).hits, events[1..], client);
    }
  }

  /** The shared store, started empty, honours its retry times too. */
  lemma {:induction false} SharedRetryHonoured(before: seq<Event>, client: Key, limit: nat, window: real, start: real,
                                               refused: real, between: seq<Event>, again: real)
    requires Ruled(before, client, limit, window, start) && start <= refused
    requires forall ev :: ev in before ==> ev.now <= refused
    requires 0.0 <= window <= MEMORY && limit > 0
    requires StepAllow(Replay(map[], before), client, limit, window, refused).answer.Refused?
    requires Ruled(between, client, limit, window, refused)
    requires AdmittedTimes(StepAllow(Replay(map[], before), client, limit, window, refused).hits, between, client) == []
    requires again >= refused + StepAllow(Replay(map[], before), client, limit, window, refused).answer.retry as real
    ensures var later := Replay(StepAllow(Replay(map[], before), client, limit, window, refused).hits, between);
            StepAllow(later, client, limit, window, again).answer == Admitted
  {
    assert Rows(map[], client) == [] && Held([], [], limit, window, start);
    hide *;
    HeldReached(map[], [], before, client, limit, window, start, refused);
    SharedRetryAdmitted(Replay(map[], before), [] + AdmittedTimes(map[], before, client),
                        client, limit, window, refused, refused, between, again);
  }

  /** A refused client that waits as told, nothing else of its key being admitted, is admitted. */
  lemma {:induction false} SharedRetryAdmitted(hits: Hits, accepted: Times, client: Key, limit: nat, window: real,
                                               now: real, refused: real, between: seq<Event>, again: real)
    requires Held(Rows(hits, client), accepted, limit, window, now) && now <= refused
    requires 0.0 <= window <= MEMORY && limit > 0
    requires StepAllow(hits, client, limit, window, refused).answer.Refused?
    requires Ruled(between, client, limit, window, refused)
    requires AdmittedTimes(StepAllow(hits, client, limit, window, refused).hits, between, client) == []
    requires again >= refused + StepAllow(hits, client, limit, window, refused).answer.retry as real
    ensures var then' := Replay(StepAllow(hits, client, limit, window, refused).hits, between);
            StepAllow(then', client, limit, window, again).answer == Admitted
  {
    hide *;
    RefusedAt(hits, client, limit, window, refused);
    CleanedRows(hits, refused, client);
    HeldCleaned(Rows(hits, client), accepted, limit, window, now, refused);
    var after := StepAllow(hits, client, limit, window, refused).hits;
    HeldWithinLimit(Rows(after, client), accepted, limit, window, refused);
    var oldest :| oldest in Rows(after, client) && refused - window <= oldest
                  && oldest + window < refused + StepAllow(hits, client, limit, window, refused).answer.retry as real;
    SinceLoses(Rows(after, client), refused - window, again - window, oldest);
    RowsThin(after, between, client, limit, window, refused, again - window);
    BelowLimitAdmits(Replay(after, between), client, limit, window, again);
  }
}
