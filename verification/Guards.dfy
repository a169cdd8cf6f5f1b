/** The limiter of one process and the table shared by all, as they are updated in place. */
module Guards {
  import W = Windows
  import H = HitStore

  method PopOld(ts: W.Times, cutoff: real) returns (dq: W.Times)
    ensures dq == W.DropOld(ts, cutoff)
  {
    dq := ts;
    while dq != [] && dq[0] < cutoff
      invariant W.DropOld(dq, cutoff) == W.DropOld(ts, cutoff)
      decreases |dq|
    {
      dq := dq[1..];
    }
  }

  /** The buckets when the keys in `todo` have not been swept yet. */
  ghost function PartlySwept(before: map<W.Key, W.Times>, todo: set<W.Key>, cutoff: real): map<W.Key, W.Times> {
    map k | k in before && (k in todo || W.DropOld(before[k], cutoff) != [])
      :: if k in todo then before[k] else W.DropOld(before[k], cutoff)
  }

  class InProcessLimiter {
    var hits: map<W.Key, W.Times>
    var lastSweep: real

    function State(): W.Limiter
      reads this
    {
      W.Limiter(hits, lastSweep)
    }

    constructor ()
      ensures State() == W.FRESH
    {
      hits, lastSweep := map[], 0.0;
    }

    /** Stale hits go, and with them the buckets they leave empty, at most once a minute. */
    method Sweep(now: real)
      modifies this
      ensures State() == W.Swept(old(State()), now)
    {
      if now - lastSweep < W.SWEEP_EVERY { return; }
      lastSweep := now;
      ghost var before := hits;
      hide W.DropOld, PartlySwept, W.Swept;
      var todo := hits.Keys;
      while todo != {}
        invariant lastSweep == now && todo <= before.Keys
        invariant hits == PartlySwept(before, todo, now - W.MEMORY)
        decreases todo
      {
        var key :| key in todo;
        var dq := PopOld(hits[key], now - W.MEMORY);
        if dq == [] {
          hits := hits - {key};
        } else {
          hits := hits[key := dq];
        }
        todo := todo - {key};
      }
    }

    method Allow(c: W.Call) returns (ok: bool, retry: int)
      requires c.limit > 0
      modifies this
      ensures State() == W.After(old(State()), c)
      ensures ok == W.Admits(old(State()), c)
      ensures retry == if ok then 0 else W.RetryAfter(old(State()), c)
    {
      hide W.DropOld, W.Swept;
      Sweep(c.now);
      var dq := if c.key in hits then hits[c.key] else [];
      dq := PopOld(dq, c.now - c.window);
      if |dq| >= c.limit {
        hits := hits[c.key := dq];
        assert dq + [] == dq;
        var wait := (dq[0] + c.window - c.now).Floor + 1;
        return false, if wait < 1 then 1 else wait;
      }
      hits := hits[c.key := dq + [c.now]];
      return true, 0;
    }
  }

  class HitTable {
    var hits: H.Hits

    constructor ()
      ensures hits == map[]
    {
      hits := map[];
    }

    method AllowShared(client: H.Key, limit: nat, window: real, now: real) returns (ok: bool, retry: int)
      requires limit > 0
      modifies this
      ensures H.Stepped(hits, if ok then H.Admitted else H.Refused(retry))
           == H.StepAllow(old(hits), client, limit, window, now)
      ensures ok ==> retry == 0
    {
      if now.Floor % 60 == 0 {
        hits := map key | key in hits :: W.Since(hits[key], now - W.MEMORY);
      }
      var live := W.Since(H.Rows(hits, client), now - window);
      if |live| >= limit {
        return false, W.Retry(H.Smallest(live), window, now);
      }
      hits := hits[client := H.Rows(hits, client) + [now]];
      return true, 0;
    }

    method CountAndAdd(key: H.Key, now: real) returns (n: nat)
      modifies this
      ensures H.Stepped(hits, H.Counted(n)) == H.StepCount(old(hits), key, now)
    {
      n := |W.Since(H.Rows(hits, key), now - W.MEMORY)|;
      hits := hits[key := H.Rows(hits, key) + [now]];
    }

    method Verify(r: H.Request, checkedAt: real, now: real) returns (answer: H.Answer)
      modifies this
      ensures H.Stepped(hits, answer) == H.StepVerify(old(hits), r, checkedAt, now)
    {
      if !H.WellFormed(r) { return H.Missing; }
      var cur := H.EpochAt(checkedAt);
      if r.epoch != cur && r.epoch != cur - 1 { return H.Expired; }
      if !r.signed { return H.BadSignature; }
      var n := CountAndAdd(H.Nonce(r.nonce), now);
      answer := if n > 0 then H.Replayed else H.Accepted;
    }
  }
}
