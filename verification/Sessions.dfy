/** Bearer sessions with two clocks: an idle window slid forward by use, and a ceiling no use extends. */
module Sessions {
  import opened Wrappers

  const TOUCH_INTERVAL := 300.0

  /** The lifetimes, in seconds. */
  datatype Ttl = Ttl(idle: real, absolute: real)

  /** A row of the token table; the hash of the bearer value is its key. */
  datatype Token = Token(created: real, lastUsed: Option<real>, expires: real)

  function Min(a: real, b: real): real {
    if a <= b then a else b
  }

  /** issue(): `now` is read first, the row's created_at is stamped by the insert. */
  function Issued(ttl: Ttl, now: real, created: real): Token {
    Token(created, Some(now), now + Min(ttl.idle, ttl.absolute))
  }

  predicate Live(token: Token, now: real) {
    token.expires > now
  }

  /** Used so short a time ago that nothing is written. */
  predicate Fresh(token: Token, now: real) {
    token.lastUsed.Some? && now - token.lastUsed.value < TOUCH_INTERVAL
  }

  function Slid(ttl: Ttl, token: Token, now: real): real {
    Min(now + ttl.idle, token.created + ttl.absolute)
  }

  function Touched(ttl: Ttl, token: Token, now: real): Token {
    if Fresh(token, now) then token else token.(lastUsed := Some(now), expires := Slid(ttl, token, now))
  }

  /** What happens to one session: a request resolves it and then touches it, or a prune runs. */
  datatype Event = Use(at: real, touched: real) | Prune(at: real)

  /** A session that is gone stays gone; an expired one resolves to nothing and is not touched. */
  function Next(ttl: Ttl, s: Option<Token>, e: Event): Option<Token> {
    if s.None? then None
    else match e
      case Use(at, touched) => if Live(s.value, at) then Some(Touched(ttl, s.value, touched)) else s
      case Prune(at) => if Live(s.value, at) then s else None
  }

  ghost function After(ttl: Ttl, s: Option<Token>, events: seq<Event>): Option<Token>
    decreases |events|
  {
    if events == [] then s else After(ttl, Next(ttl, s, events[0]), events[1..])
  }

  /** Each use of the run finds the session alive. */
  ghost predicate AllAccepted(ttl: Ttl, s: Option<Token>, events: seq<Event>)
    decreases |events|
  {
    events == [] || ((events[0].Use? ==> s.Some? && Live(s.value, events[0].at))
                     && AllAccepted(ttl, Next(ttl, s, events[0]), events[1..]))
  }

  ghost predicate Bounded(ttl: Ttl, token: Token) {
    && token.expires <= token.created + ttl.absolute
    && (token.lastUsed.Some? ==> token.expires <= token.lastUsed.value + ttl.idle)
  }

  // ------------------------------------------------------ overlapping requests

  /** Where one request stands: it has loaded the row, or has read the clock and will write both fields. */
  datatype Flight = Loaded(token: Token) | Writing(used: real, expires: real)

  datatype Session = Session(row: Option<Token>, flights: map<nat, Flight>)

  /** The steps of requests and prunes, which interleave freely. */
  datatype Step =
    | Resolve(p: nat, at: real)
    | Clock(p: nat, now: real)
    | Write(p: nat)
    | Clean(at: real)

  /** A request that is not ready for a step does nothing; an update of a row that is gone changes none. */
  function Taken(ttl: Ttl, s: Session, step: Step): Session {
    match step
    case Resolve(p, at) =>
      if s.row.Some? && Live(s.row.value, at) && p !in s.flights
      then s.(flights := s.flights[p := Loaded(s.row.value)]) else s
    case Clock(p, now) =>
      if p in s.flights && s.flights[p].Loaded?
      then
        var token := s.flights[p].token;
        if Fresh(token, now) then s.(flights := s.flights - {p})
        else s.(flights := s.flights[p := Writing(now, Slid(ttl, token, now))])
      else s
    case Write(p) =>
      if p in s.flights && s.flights[p].Writing?
      then
        var w := s.flights[p];
        var row := if s.row.None? then None else Some(s.row.value.(lastUsed := Some(w.used), expires := w.expires));
        Session(row, s.flights - {p})
      else s
    case Clean(at) => if s.row.Some? && !Live(s.row.value, at) then s.(row := None) else s
  }

  ghost function Ran(ttl: Ttl, s: Session, steps: seq<Step>): Session
    decreases |steps|
  {
    if steps == [] then s else Ran(ttl, Taken(ttl, s, steps[0]), steps[1..])
  }

  ghost predicate FlightSound(ttl: Ttl, created: real, f: Flight) {
    match f
    case Loaded(token) => token.created == created && Bounded(ttl, token)
    case Writing(used, expires) => expires <= created + ttl.absolute && expires <= used + ttl.idle
  }

  ghost predicate Sound(ttl: Ttl, created: real, s: Session) {
    && (s.row.Some? ==> s.row.value.created == created && s.row.value.lastUsed.Some? && Bounded(ttl, s.row.value))
    && forall p :: p in s.flights ==> FlightSound(ttl, created, s.flights[p])
  }

  lemma {:induction false} TakenSound(ttl: Ttl, created: real, s: Session, step: Step)
    requires Sound(ttl, created, s)
    ensures Sound(ttl, created, Taken(ttl, s, step))
  {
    if step.Clock? && step.p in s.flights {
      assert FlightSound(ttl, created, s.flights[step.p]);
    }
    if step.Write? && step.p in s.flights { assert FlightSound(ttl, created, s.flights[step.p]); }
  }

  lemma {:induction false} RanSound(ttl: Ttl, created: real, s: Session, steps: seq<Step>)
    requires Sound(ttl, created, s)
    ensures Sound(ttl, created, Ran(ttl, s, steps))
    decreases |steps|
  {
    hide Sound, Taken;
    if steps != [] {
      TakenSound(ttl, created, s, steps[0]);
      RanSound(ttl, created, Taken(ttl, s, steps[0]), steps[1..]);
    }
  }

  /**
    However its requests and prunes interleave, also when one writes what it read long ago, a
    session is never resolvable at or past its ceiling, or at or past the idle window after its
    recorded last use.
  */
  lemma {:induction false} NeverPastBounds(ttl: Ttl, now: real, created: real, steps: seq<Step>, at: real)
    requires now <= created
    ensures var row := Ran(ttl, Session(Some(Issued(ttl, now, created)), map[]), steps).row;
            row.Some? && Live(row.value, at) ==>
              && row.value.created == created && at < created + ttl.absolute
              && row.value.lastUsed.Some? && at < row.value.lastUsed.value + ttl.idle
  {
    RanSound(ttl, created, Session(Some(Issued(ttl, now, created)), map[]), steps);
  }

  /** A run of requests one after the other, step by step. */
  ghost function StepsOf(events: seq<Event>): seq<Step>
    decreases |events|
  {
    if events == [] then []
    else
      match events[0]
      case Use(at, touched) => [Resolve(0, at), Clock(0, touched), Write(0)] + StepsOf(events[1..])
      case Prune(at) => [Clean(at)] + StepsOf(events[1..])
  }

  lemma {:induction false} RanAppend(ttl: Ttl, s: Session, a: seq<Step>, b: seq<Step>)
    ensures Ran(ttl, s, a + b) == Ran(ttl, Ran(ttl, s, a), b)
    decreases |a|
  {
    hide Taken;
    if a == [] {
      assert a + b == b;
    } else {
      assert (a + b)[0] == a[0] && (a + b)[1..] == a[1..] + b;
      RanAppend(ttl, Taken(ttl, s, a[0]), a[1..], b);
    }
  }

  lemma {:induction false} RanTwo(ttl: Ttl, s: Session, x: Step, y: Step)
    ensures Ran(ttl, s, [x, y]) == Taken(ttl, Taken(ttl, s, x), y)
  {
    hide Taken;
    assert [x, y][1..] == [y] && [y][1..] == [];
    assert Ran(ttl, Taken(ttl, s, x), [y]) == Taken(ttl, Taken(ttl, s, x), y);
  }

  lemma {:induction false} RanOne(ttl: Ttl, s: Session, x: Step)
    ensures Ran(ttl, s, [x]) == Taken(ttl, s, x)
  {
    hide Taken;
    assert [x][1..] == [];
  }

  /** One request that meets no other does what `Next` says. */
  lemma {:induction false} UseByItself(ttl: Ttl, row: Option<Token>, at: real, touched: real)
    ensures Ran(ttl, Session(row, map[]), [Resolve(0, at), Clock(0, touched), Write(0)])
         == Session(Next(ttl, row, Use(at, touched)), map[])
  {
    var s := Session(row, map[]);
    RanTwo(ttl, s, Resolve(0, at), Clock(0, touched));
    var s2 := Ran(ttl, s, [Resolve(0, at), Clock(0, touched)]);
    RanOne(ttl, s2, Write(0));
    RanAppend(ttl, s, [Resolve(0, at), Clock(0, touched)], [Write(0)]);
    assert [Resolve(0, at), Clock(0, touched)] + [Write(0)] == [Resolve(0, at), Clock(0, touched), Write(0)];
    assert Taken(ttl, s2, Write(0)).flights == map[];
  }

  lemma {:induction false} CleanByItself(ttl: Ttl, row: Option<Token>, at: real)
    ensures Taken(ttl, Session(row, map[]), Clean(at)) == Session(Next(ttl, row, Event.Prune(at)), map[])
  {}

  /** Requests that follow one another are among the interleavings, and leave the row that `After` gives. */
  lemma {:induction false} SequentialRuns(ttl: Ttl, row: Option<Token>, events: seq<Event>)
    ensures Ran(ttl, Session(row, map[]), StepsOf(events)) == Session(After(ttl, row, events), map[])
    decreases |events|
  {
    if events != [] {
      hide Taken;
      SequentialRuns(ttl, Next(ttl, row, events[0]), events[1..]);
      match events[0] {
        case Use(at, touched) =>
          UseByItself(ttl, row, at, touched);
          RanAppend(ttl, Session(row, map[]), [Resolve(0, at), Clock(0, touched), Write(0)], StepsOf(events[1..]));
        case Prune(at) =>
          CleanByItself(ttl, row, at);
          assert ([Clean(at)] + StepsOf(events[1..]))[1..] == StepsOf(events[1..]);
      }
    }
  }

  /** A request that is late to write takes a session back: the later use is forgotten. */
  lemma {:induction false} LateWriteTakesBack(ttl: Ttl, now: real)
    requires ttl.idle > 2.0 * TOUCH_INTERVAL && ttl.absolute > ttl.idle + 2.0 * TOUCH_INTERVAL
    ensures var first, later := now + TOUCH_INTERVAL, now + 2.0 * TOUCH_INTERVAL;
            var s := Session(Some(Issued(ttl, now, now)), map[]);
            var early := [Resolve(0, first), Clock(0, first)] + [Resolve(1, later), Clock(1, later)];
            && Ran(ttl, s, early + [Write(1)]).row == Some(Token(now, Some(later), later + ttl.idle))
            && Ran(ttl, s, early + [Write(1), Write(0)]).row == Some(Token(now, Some(first), first + ttl.idle))
  {
    var first, later := now + TOUCH_INTERVAL, now + 2.0 * TOUCH_INTERVAL;
    var s := Session(Some(Issued(ttl, now, now)), map[]);
    var a, b := [Resolve(0, first), Clock(0, first)], [Resolve(1, later), Clock(1, later)];
    RanTwo(ttl, s, Resolve(0, first), Clock(0, first));
    var mid := Ran(ttl, s, a);
    assert mid == s.(flights := map[0 := Writing(first, first + ttl.idle)]);
    RanTwo(ttl, mid, Resolve(1, later), Clock(1, later));
    var both := Ran(ttl, mid, b);
    RanAppend(ttl, s, a, b);
    RanOne(ttl, both, Write(1));
    RanTwo(ttl, both, Write(1), Write(0));
    RanAppend(ttl, s, a + b, [Write(1)]);
    RanAppend(ttl, s, a + b, [Write(1), Write(0)]);
  }

  // ------------------------------------------------------------- regular use

  /** Time goes forward, no two uses are further apart than `gap`, and all fall before `ceiling`. */
  ghost predicate Regular(events: seq<Event>, gap: real, ceiling: real, now: real, used: real)
    decreases |events|
  {
    events == []
    || match events[0]
       case Use(at, touched) =>
         now <= at <= touched && at - used <= gap && at < ceiling && Regular(events[1..], gap, ceiling, touched, at)
       case Prune(at) => now <= at && Regular(events[1..], gap, ceiling, at, used)
  }

  /** Whatever is within the gap of the last use and below the ceiling is before the expiry. */
  ghost predicate Ready(ttl: Ttl, token: Token, issued: real, used: real) {
    forall at: real :: at - used <= ttl.idle - TOUCH_INTERVAL && at < issued + ttl.absolute ==> Live(token, at)
  }

  ghost predicate UsedAgain(events: seq<Event>) {
    exists i :: 0 <= i < |events| && events[i].Use?
  }

  /** A prune in front of a further use comes no later than it, so it finds the session alive. */
  lemma {:induction false} NextUse(events: seq<Event>, gap: real, ceiling: real, now: real, used: real)
    returns (at: real)
    requires Regular(events, gap, ceiling, now, used) && UsedAgain(events)
    ensures now <= at && at - used <= gap && at < ceiling
    decreases |events|
  {
    if events[0].Use? {
      at := events[0].at;
    } else {
      var i :| 0 <= i < |events| && events[i].Use?;
      assert events[1..][i - 1].Use?;
      at := NextUse(events[1..], gap, ceiling, events[0].at, used);
    }
  }

  lemma {:induction false} NoUseAccepted(ttl: Ttl, s: Option<Token>, events: seq<Event>)
    requires !UsedAgain(events)
    ensures AllAccepted(ttl, s, events)
    decreases |events|
  {
    if events != [] {
      assert forall i :: 0 <= i < |events[1..]| ==> events[1..][i] == events[i + 1];
      NoUseAccepted(ttl, Next(ttl, s, events[0]), events[1..]);
    }
  }

  lemma {:induction false} RegularAccepted(ttl: Ttl, token: Token, events: seq<Event>, issued: real, now: real,
                                           used: real)
    requires Ready(ttl, token, issued, used) && issued <= token.created
    requires Regular(events, ttl.idle - TOUCH_INTERVAL, issued + ttl.absolute, now, used)
    requires token.lastUsed.Some? && token.expires >= Min(token.lastUsed.value + ttl.idle, issued + ttl.absolute)
    ensures AllAccepted(ttl, Some(token), events)
    decreases |events|
  {
    if UsedAgain(events) {
      match events[0] {
        case Use(at, touched) =>
          assert Live(token, at);
          var next := Touched(ttl, token, touched);
          RegularAccepted(ttl, next, events[1..], issued, touched, at);
        case Prune(at) =>
          var later := NextUse(events[1..], ttl.idle - TOUCH_INTERVAL, issued + ttl.absolute, at, used);
          assert Live(token, later);
          RegularAccepted(ttl, token, events[1..], issued, at, used);
      }
    } else {
      NoUseAccepted(ttl, Some(token), events);
    }
  }

  /**
    A session used at gaps of at most the idle window less TOUCH_INTERVAL is accepted every
    time until the ceiling, although most uses are not written down.
  */
  lemma {:induction false} RegularUseKeepsAlive(ttl: Ttl, now: real, created: real, events: seq<Event>)
    requires now <= created
    requires Regular(events, ttl.idle - TOUCH_INTERVAL, now + ttl.absolute, now, now)
    ensures AllAccepted(ttl, Some(Issued(ttl, now, created)), events)
  {
    RegularAccepted(ttl, Issued(ttl, now, created), events, now, now, now);
  }

  /** That gap is the largest: with any longer one, up to the idle window, two uses can lose the session. */
  lemma {:induction false} LongerGapsLose(ttl: Ttl, now: real, gap: real) returns (uses: seq<Event>)
    requires 2.0 * TOUCH_INTERVAL <= ttl.idle < ttl.absolute && ttl.idle - TOUCH_INTERVAL < gap <= ttl.idle
    ensures Regular(uses, gap, now + ttl.absolute, now, now)
    ensures !AllAccepted(ttl, Some(Issued(ttl, now, now)), uses)
  {
    var first := now + ttl.idle - gap;
    uses := [Use(first, first), Use(first + gap, first + gap)];
    var token := Issued(ttl, now, now);
    assert uses[1..] == [uses[1]] && uses[1..][1..] == [];
    assert Next(ttl, Some(token), uses[0]) == Some(token);
    assert !AllAccepted(ttl, Some(token), uses[1..]);
    assert Regular(uses[1..][1..], gap, now + ttl.absolute, first + gap, first + gap);
    assert Regular(uses[1..], gap, now + ttl.absolute, first, first);
    assert Regular(uses, gap, now + ttl.absolute, now, now);
  }

  class SessionTable {
    var tokens: map<nat, Token>
    const ttl: Ttl

    /** Every stored expiry respects both clocks. */
    ghost predicate Valid()
      reads this
    {
      forall k :: k in tokens ==> Bounded(ttl, tokens[k])
    }

    constructor (ttl: Ttl)
      ensures Valid() && this.ttl == ttl && tokens == map[]
    {
      this.ttl, tokens := ttl, map[];
    }

    /** A fresh hash: the bearer value is random, and the column is unique. */
    method Issue(key: nat, now: real, created: real)
      requires Valid() && key !in tokens && now <= created
      modifies this`tokens
      ensures Valid() && tokens == old(tokens)[key := Issued(ttl, now, created)]
    {
      tokens := tokens[key := Token(created, Some(now), now + Min(ttl.idle, ttl.absolute))];
    }

    /** A token is answered exactly while it is live, and then both clocks are still running. */
    method Resolve(key: nat, now: real) returns (token: Option<Token>)
      requires Valid()
      ensures token.Some? <==> key in tokens && Live(tokens[key], now)
      ensures token.Some? ==> token == Row(tokens, key) && now < token.value.created + ttl.absolute
      ensures token.Some? && token.value.lastUsed.Some? ==> now < token.value.lastUsed.value + ttl.idle
    {
      token := if key in tokens && tokens[key].expires > now then Some(tokens[key]) else None;
    }

    /**
      touch() on the row as it was loaded: nothing within TOUCH_INTERVAL of the use it shows, else
      one UPDATE of both fields, which changes nothing when the row is gone by then.
    */
    method Touch(key: nat, loaded: Token, now: real)
      requires Valid() && (key in tokens ==> tokens[key].created == loaded.created)
      modifies this`tokens
      ensures Valid()
      ensures forall k :: k != key ==> Row(tokens, k) == Row(old(tokens), k)
      ensures Row(tokens, key) == if key in old(tokens) && !Fresh(loaded, now)
                                  then Some(Token(loaded.created, Some(now), Slid(ttl, loaded, now)))
                                  else Row(old(tokens), key)
    {
      if loaded.lastUsed.Some? && now - loaded.lastUsed.value < TOUCH_INTERVAL {
        return;
      }
      var expiry := Min(now + ttl.idle, loaded.created + ttl.absolute);
      if key in tokens {
        tokens := tokens[key := tokens[key].(lastUsed := Some(now), expires := expiry)];
      }
    }

    /** One authenticated request that overlaps no other. */
    method Request(key: nat, at: real, touched: real) returns (accepted: bool)
      requires Valid()
      modifies this`tokens
      ensures Valid()
      ensures accepted <==> key in old(tokens) && Live(old(tokens)[key], at)
      ensures forall k :: k != key ==> Row(tokens, k) == Row(old(tokens), k)
      ensures Row(tokens, key) == Next(ttl, Row(old(tokens), key), Use(at, touched))
    {
      var token := Resolve(key, at);
      accepted := token.Some?;
      if accepted { Touch(key, token.value, touched); }
    }

    method Prune(now: real) returns (gone: nat)
      requires Valid()
      modifies this`tokens
      ensures Valid()
      ensures forall k :: Row(tokens, k) == Next(ttl, Row(old(tokens), k), Event.Prune(now))
      ensures gone == |old(tokens)| - |tokens|
    {
      ghost var before := tokens;
      var stale := set k | k in tokens && tokens[k].expires <= now;
      gone := |stale|;
      tokens := tokens - stale;
      assert before.Keys == tokens.Keys + stale;
    }
  }

  function Row(tokens: map<nat, Token>, key: nat): Option<Token> {
    if key in tokens then Some(tokens[key]) else None
  }
}
