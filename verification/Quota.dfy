/**
  The question allowance of one user under concurrent requests: check, insert a row, recount,
  and delete the row on overflow, each step interleaving freely with those of other requests.
*/
module Quota {
  import opened Wrappers

  /** Questions allowed, and the length of the rolling window; None counts the whole access window. */
  datatype Plan = Plan(limit: nat, window: Option<real>)

  const DAY := 86400.0

  /** PLAN_AI */
  const PLANS: map<string, Plan> :=
    map["demo" := Plan(5, None), "pass" := Plan(20, None),
        "monthly" := Plan(150, Some(30.0 * DAY)), "annual" := Plan(200, Some(30.0 * DAY))]

  /** A company as far as its plan goes: the stored plan id, and what its subscription note mentions. */
  datatype Subscriber = Subscriber(plan: string, isDemo: bool, noteTwoDays: bool, noteMonthly: bool)

  /** company_plan: a stored id that is in the table, else inferred. */
  function CompanyPlan(c: Subscriber): (name: string)
    ensures name in PLANS
    ensures c.plan in PLANS ==> name == c.plan
    ensures c.plan !in PLANS ==> (name == "demo" <==> c.isDemo)
    ensures c.plan !in PLANS && !c.isDemo ==> (name == "pass" <==> c.noteTwoDays)
    ensures c.plan !in PLANS && !c.isDemo && !c.noteTwoDays ==> name == if c.noteMonthly then "monthly" else "annual"
  {
    if c.plan in PLANS then c.plan
    else if c.isDemo then "demo"
    else if c.noteTwoDays then "pass"
    else if c.noteMonthly then "monthly"
    else "annual"
  }

  /** From when rows count: the start of the window and the last reset. */
  datatype Cutoff = Cutoff(start: Option<real>, reset: Option<real>)

  predicate AtOrAfter(t: real, bound: Option<real>) {
    bound.Some? ==> t >= bound.value
  }

  predicate Counts(created: real, c: Cutoff) {
    AtOrAfter(created, c.start) && AtOrAfter(created, c.reset)
  }

  function StartOf(plan: Plan, now: real): Option<real> {
    if plan.window.Some? then Some(now - plan.window.value) else None
  }

  type Log = map<nat, real>

  function Counted(log: Log, c: Cutoff): set<nat> {
    set p | p in log && Counts(log[p], c)
  }

  /** usage(): how many rows count. */
  function Used(log: Log, c: Cutoff): nat {
    |Counted(log, c)|
  }

  // -------------------------------------------------------- requests in flight

  /** Where one request stands; `reset` is the company's reset time as the request loaded it. */
  datatype Stage =
    | Loaded(reset: Option<real>)
    | Cleared(reset: Option<real>)
    | Stamped(reset: Option<real>, created: real)
    | Inserted(reset: Option<real>)
    | Recounting(cutoff: Cutoff)
    | Overflowing
    | Accepted
    | Refused

  datatype State = State(now: real, reset: Option<real>, log: Log, requests: map<nat, Stage>)

  datatype Step =
    | Tick(now: real)
    | ResetQuota(at: real)
    | Load(p: nat)       // the request loads its company
    | Check(p: nat)      // the first usage()
    | Stamp(p: nat)      // created_at of the new row
    | Insert(p: nat)
    | Cut(p: nat)        // the second usage() reads the clock ...
    | Recount(p: nat)    // ... and counts
    | Delete(p: nat)

  predicate NoLater(a: Option<real>, b: Option<real>) {
    a.Some? ==> b.Some? && a.value <= b.value
  }

  /** A step that a request is not ready for, or a clock or reset that would go back, does nothing. */
  function Next(plan: Plan, s: State, step: Step): State {
    match step
    case Tick(now) => if now >= s.now then s.(now := now) else s
    case ResetQuota(at) => if AtOrAfter(at, s.reset) then s.(reset := Some(at)) else s
    case Load(p) => if p in s.requests then s else s.(requests := s.requests[p := Loaded(s.reset)])
    case Check(p) =>
      if p in s.requests && s.requests[p].Loaded?
      then
        var reset := s.requests[p].reset;
        var full := Used(s.log, Cutoff(StartOf(plan, s.now), reset)) >= plan.limit;
        s.(requests := s.requests[p := if full then Refused else Cleared(reset)])
      else s
    case Stamp(p) =>
      if p in s.requests && s.requests[p].Cleared?
      then s.(requests := s.requests[p := Stamped(s.requests[p].reset, s.now)]) else s
    case Insert(p) =>
      if p in s.requests && s.requests[p].Stamped?
      then s.(requests := s.requests[p := Inserted(s.requests[p].reset)], log := s.log[p := s.requests[p].created])
      else s
    case Cut(p) =>
      if p in s.requests && s.requests[p].Inserted?
      then s.(requests := s.requests[p := Recounting(Cutoff(StartOf(plan, s.now), s.requests[p].reset))]) else s
    case Recount(p) =>
      if p in s.requests && s.requests[p].Recounting?
      then
        var over := Used(s.log, s.requests[p].cutoff) > plan.limit;
        s.(requests := s.requests[p := if over then Overflowing else Accepted])
      else s
    case Delete(p) =>
      if p in s.requests && s.requests[p].Overflowing?
      then s.(requests := s.requests[p := Refused], log := s.log - {p}) else s
  }

  ghost function Run(plan: Plan, s: State, steps: seq<Step>): State
    decreases |steps|
  {
    if steps == [] then s else Run(plan, Next(plan, s, steps[0]), steps[1..])
  }

  // ------------------------------------------------------------------- safety

  ghost function AcceptedNow(plan: Plan, s: State): set<nat> {
    set p | p in s.requests && s.requests[p].Accepted? && p in s.log
      && Counts(s.log[p], Cutoff(StartOf(plan, s.now), s.reset))
  }

  /** A cutoff some request has read is no later than the present one. */
  ghost predicate Earlier(c: Cutoff, plan: Plan, s: State) {
    NoLater(c.start, StartOf(plan, s.now)) && NoLater(c.reset, s.reset)
  }

  ghost predicate StageSound(plan: Plan, s: State, p: nat, stage: Stage) {
    match stage
    case Loaded(reset) => NoLater(reset, s.reset)
    case Cleared(reset) => NoLater(reset, s.reset)
    case Stamped(reset, _) => NoLater(reset, s.reset)
    case Inserted(reset) => NoLater(reset, s.reset) && p in s.log
    case Recounting(c) => Earlier(c, plan, s) && p in s.log
    case Overflowing => true
    case Accepted => p in s.log
    case Refused => true
  }

  ghost predicate Invariant(plan: Plan, s: State) {
    && (forall p :: p in s.requests ==> StageSound(plan, s, p, s.requests[p]))
    && |AcceptedNow(plan, s)| <= plan.limit
  }

  lemma {:induction false} RecountSafe(plan: Plan, s: State, p: nat)
    requires Invariant(plan, s) && p in s.requests && s.requests[p].Recounting?
    ensures |AcceptedNow(plan, Next(plan, s, Recount(p)))| <= plan.limit
  {
    var t := Next(plan, s, Recount(p));
    var c := s.requests[p].cutoff;
    assert StageSound(plan, s, p, s.requests[p]);
    if Used(s.log, c) > plan.limit {
      assert AcceptedNow(plan, t) <= AcceptedNow(plan, s);
      SubsetSize(AcceptedNow(plan, t), AcceptedNow(plan, s));
    } else {
      var counted := Counted(s.log, c);
      forall q | q in AcceptedNow(plan, t) ensures q in counted {}
      SubsetSize(AcceptedNow(plan, t), counted);
    }
  }

  /** Time, resets and every step but a recount accept nothing new. */
  lemma {:induction false} OthersSafe(plan: Plan, s: State, step: Step)
    requires Invariant(plan, s) && !step.Recount?
    ensures |AcceptedNow(plan, Next(plan, s, step))| <= plan.limit
  {
    var t := Next(plan, s, step);
    forall q | q in AcceptedNow(plan, t) ensures q in AcceptedNow(plan, s) {
      assert q in s.requests && s.requests[q].Accepted? && StageSound(plan, s, q, s.requests[q]);
    }
    SubsetSize(AcceptedNow(plan, t), AcceptedNow(plan, s));
  }

  lemma {:induction false} StagesSound(plan: Plan, s: State, step: Step)
    requires Invariant(plan, s)
    ensures forall p :: p in Next(plan, s, step).requests ==>
         StageSound(plan, Next(plan, s, step), p, Next(plan, s, step).requests[p])
  {
    hide Used;
    var t := Next(plan, s, step);
    forall p | p in t.requests ensures StageSound(plan, t, p, t.requests[p]) {
      assert p in s.requests ==> StageSound(plan, s, p, s.requests[p]);
    }
  }

  lemma {:induction false} NextInvariant(plan: Plan, s: State, step: Step)
    requires Invariant(plan, s)
    ensures Invariant(plan, Next(plan, s, step))
  {
    hide Used, StageSound;
    StagesSound(plan, s, step);
    if step.Recount? {
      if step.p in s.requests && s.requests[step.p].Recounting? { RecountSafe(plan, s, step.p); }
    } else {
      OthersSafe(plan, s, step);
    }
  }

  /**
    In every interleaving, at every moment, the accepted questions that now count do not
    exceed the limit.
  */
  lemma {:induction false} NeverOverLimit(plan: Plan, s: State, steps: seq<Step>)
    requires Invariant(plan, s)
    ensures Invariant(plan, Run(plan, s, steps))
    ensures |AcceptedNow(plan, Run(plan, s, steps))| <= plan.limit
    decreases |steps|
  {
    if steps != [] {
      NextInvariant(plan, s, steps[0]);
      NeverOverLimit(plan, Next(plan, s, steps[0]), steps[1..]);
    }
  }

  lemma {:induction false} StartInvariant(plan: Plan, now: real, reset: Option<real>)
    ensures Invariant(plan, State(now, reset, map[], map[]))
  {
    assert AcceptedNow(plan, State(now, reset, map[], map[])) == {};
  }

  /** The accepted questions of the last `days`, or of the whole access, since the last reset. */
  ghost function AcceptedSince(s: State, days: Option<real>): set<nat> {
    set p | && p in s.requests && s.requests[p].Accepted? && p in s.log
            && (days.Some? ==> s.now - s.log[p] <= days.value * DAY) && (s.reset.Some? ==> s.log[p] >= s.reset.value)
  }

  /**
    Every company has an allowance, and starting from an empty log no interleaving ever takes a
    user past the number its plan stands for in the table.
  */
  lemma {:induction false} EveryPlanKept(c: Subscriber, now: real, reset: Option<real>, steps: seq<Step>)
    ensures CompanyPlan(c) in PLANS
    ensures var plan, end := PLANS[CompanyPlan(c)],
                             Run(PLANS[CompanyPlan(c)], State(now, reset, map[], map[]), steps);
            match CompanyPlan(c)
            case "demo" => |AcceptedSince(end, None)| <= 5
            case "pass" => |AcceptedSince(end, None)| <= 20
            case "monthly" => |AcceptedSince(end, Some(30.0))| <= 150
            case _ => |AcceptedSince(end, Some(30.0))| <= 200
  {
    var plan := PLANS[CompanyPlan(c)];
    StartInvariant(plan, now, reset);
    NeverOverLimit(plan, State(now, reset, map[], map[]), steps);
    var end := Run(plan, State(now, reset, map[], map[]), steps);
    hide Run, Invariant;
    var days := if CompanyPlan(c) in {"demo", "pass"} then None else Some(30.0);
    assert AcceptedNow(plan, end) == AcceptedSince(end, days);
  }

  // ------------------------------------------------------------- exactness

  /** Two requests that are checked before either has inserted its row, and insert before either recounts. */
  ghost function Race(): seq<Step> {
    [Load(0), Load(1), Check(0), Check(1)] + [Stamp(0), Insert(0), Stamp(1), Insert(1)]
    + ([Cut(0), Cut(1)] + [Recount(0), Recount(1)]) + [Delete(0), Delete(1)]
  }

  /** With the last question left, two racing requests can both be turned away. */
  lemma {:induction false} RacersCanBothLose()
    ensures var end := Run(Plan(1, None), State(0.0, None, map[], map[]), Race());
            end.log == map[] && end.requests == map[0 := Refused, 1 := Refused]
  {
    var plan, start := Plan(1, None), State(0.0, None, map[], map[]);
    var checks, inserts := [Load(0), Load(1), Check(0), Check(1)], [Stamp(0), Insert(0), Stamp(1), Insert(1)];
    var counts := [Cut(0), Cut(1)] + [Recount(0), Recount(1)];
    RaceChecks(plan);
    RaceInserts(plan);
    RaceCounts(plan);
    RaceDeletes(plan);
    RunAppend(plan, start, checks, inserts);
    RunAppend(plan, start, checks + inserts, counts);
    hide Run;
    RunAppend(plan, start, checks + inserts + counts, [Delete(0), Delete(1)]);
  }

  lemma {:induction false} RunAppend(plan: Plan, s: State, a: seq<Step>, b: seq<Step>)
    ensures Run(plan, s, a + b) == Run(plan, Run(plan, s, a), b)
    decreases |a|
  {
    hide Next;
    if a == [] {
      assert a + b == b;
    } else {
      assert (a + b)[0] == a[0] && (a + b)[1..] == a[1..] + b;
      RunAppend(plan, Next(plan, s, a[0]), a[1..], b);
    }
  }

  lemma {:induction false} UsedAtMost(log: Log, c: Cutoff)
    ensures Used(log, c) <= |log|
  {
    SubsetSize(Counted(log, c), log.Keys);
  }

  lemma {:induction false} RaceChecks(plan: Plan)
    requires plan == Plan(1, None)
    ensures Run(plan, State(0.0, None, map[], map[]), [Load(0), Load(1), Check(0), Check(1)])
         == State(0.0, None, map[], map[0 := Cleared(None), 1 := Cleared(None)])
  {
    var s := State(0.0, None, map[], map[]);
    UsedAtMost(s.log, Cutoff(None, None));
    hide Used;
    var loads, checks := [Load(0), Load(1)], [Check(0), Check(1)];
    var loaded := s.(requests := map[0 := Loaded(None), 1 := Loaded(None)]);
    assert loads[1..] == [Load(1)] && checks[1..] == [Check(1)];
    assert Run(plan, s, loads) == loaded;
    assert Next(plan, loaded, Check(0)) == s.(requests := map[0 := Cleared(None), 1 := Loaded(None)]);
    assert Run(plan, loaded, checks) == s.(requests := map[0 := Cleared(None), 1 := Cleared(None)]);
    RunAppend(plan, s, loads, checks);
    assert loads + checks == [Load(0), Load(1), Check(0), Check(1)];
  }

  lemma {:induction false} RaceInserts(plan: Plan)
    requires plan == Plan(1, None)
    ensures Run(plan, State(0.0, None, map[], map[0 := Cleared(None), 1 := Cleared(None)]),
                [Stamp(0), Insert(0), Stamp(1), Insert(1)])
         == State(0.0, None, map[0 := 0.0, 1 := 0.0], map[0 := Inserted(None), 1 := Inserted(None)])
  {
    hide Used;
    var s := State(0.0, None, map[], map[0 := Cleared(None), 1 := Cleared(None)]);
    assert Next(plan, Next(plan, s, Stamp(0)), Insert(0))
        == s.(log := map[0 := 0.0], requests := map[0 := Inserted(None), 1 := Cleared(None)]);
  }

  lemma {:induction false} RaceCounts(plan: Plan)
    requires plan == Plan(1, None)
    ensures Run(plan, State(0.0, None, map[0 := 0.0, 1 := 0.0], map[0 := Inserted(None), 1 := Inserted(None)]),
                [Cut(0), Cut(1)] + [Recount(0), Recount(1)])
         == State(0.0, None, map[0 := 0.0, 1 := 0.0], map[0 := Overflowing, 1 := Overflowing])
  {
    var s := State(0.0, None, map[0 := 0.0, 1 := 0.0], map[0 := Inserted(None), 1 := Inserted(None)]);
    var all := Cutoff(None, None);
    assert Counted(s.log, all) == {0, 1} && Used(s.log, all) == 2;
    hide Used, Counted;
    var cut := s.(requests := map[0 := Recounting(all), 1 := Recounting(all)]);
    assert Run(plan, s, [Cut(0), Cut(1)]) == cut;
    assert Next(plan, cut, Recount(0)) == s.(requests := map[0 := Overflowing, 1 := Recounting(all)]);
    RunAppend(plan, s, [Cut(0), Cut(1)], [Recount(0), Recount(1)]);
  }

  lemma {:induction false} RaceDeletes(plan: Plan)
    ensures Run(plan, State(0.0, None, map[0 := 0.0, 1 := 0.0], map[0 := Overflowing, 1 := Overflowing]),
                [Delete(0), Delete(1)])
         == State(0.0, None, map[], map[0 := Refused, 1 := Refused])
  {
    hide Used;
    var s := State(0.0, None, map[0 := 0.0, 1 := 0.0], map[0 := Overflowing, 1 := Overflowing]);
    assert Next(plan, Next(plan, s, Delete(0)), Delete(1)).log == map[];
  }

  // ------------------------------------------------------------- one request

  /** A row added between the check and the recount raises the count by at most one. */
  lemma {:induction false} UsedGrows(log: Log, p: nat, created: real, checked: Cutoff, recounted: Cutoff)
    requires p !in log && NoLater(checked.start, recounted.start) && NoLater(checked.reset, recounted.reset)
    ensures Used(log[p := created], recounted) <= Used(log, checked) + 1
  {
    SubsetSize(Counted(log[p := created], recounted), Counted(log, checked) + {p});
  }

  /** The rows that a request counts which loaded the company with this reset time. */
  ghost function InForce(plan: Plan, log: Log, now: real, reset: Option<real>): set<nat> {
    set q | && q in log && (plan.window.Some? ==> now - log[q] <= plan.window.value)
            && (reset.Some? ==> log[q] >= reset.value)
  }

  ghost function Alone(p: nat, stampedAt: real, recountedAt: real): seq<Step> {
    [Load(p), Check(p), Tick(stampedAt), Stamp(p)] + [Insert(p), Tick(recountedAt), Cut(p), Recount(p), Delete(p)]
  }

  /** A question that meets no other is accepted exactly when one is left, and only then leaves its row. */
  lemma {:induction false} AloneAnswered(plan: Plan, s: State, p: nat, stampedAt: real, recountedAt: real)
    requires p !in s.requests && p !in s.log && s.now <= stampedAt <= recountedAt
    ensures var end := Run(plan, s, Alone(p, stampedAt, recountedAt));
            if |InForce(plan, s.log, s.now, s.reset)| < plan.limit then
              end == State(recountedAt, s.reset, s.log[p := stampedAt], s.requests[p := Accepted])
            else end == State(recountedAt, s.reset, s.log, s.requests[p := Refused])
  {
    var c, d := Cutoff(StartOf(plan, s.now), s.reset), Cutoff(StartOf(plan, recountedAt), s.reset);
    assert Counted(s.log, c) == InForce(plan, s.log, s.now, s.reset);
    UsedGrows(s.log, p, stampedAt, c, d);
    var room := Used(s.log, c) < plan.limit;
    hide Used, InForce;
    var first, second := [Load(p), Check(p), Tick(stampedAt), Stamp(p)],
                         [Insert(p), Tick(recountedAt), Cut(p), Recount(p), Delete(p)];
    RunAppend(plan, s, first, second);
    hide Counts;
    AloneStamped(plan, s, p, stampedAt);
    var mid := Run(plan, s, first);
    if room {
      AloneRecounted(plan, mid, p, s.reset, stampedAt, recountedAt);
    } else {
      AloneRefused(plan, mid, p, recountedAt);
    }
  }

  lemma {:induction false} AloneStamped(plan: Plan, s: State, p: nat, stampedAt: real)
    requires p !in s.requests && s.now <= stampedAt
    ensures Run(plan, s, [Load(p), Check(p), Tick(stampedAt), Stamp(p)])
         == State(stampedAt, s.reset, s.log,
                  s.requests[p := if Used(s.log, Cutoff(StartOf(plan, s.now), s.reset)) < plan.limit
                                  then Stamped(s.reset, stampedAt) else Refused])
  {
    hide Used;
    var a := Next(plan, s, Load(p));
    var b := Next(plan, a, Check(p));
    var c := Next(plan, b, Tick(stampedAt));
    RunFour(plan, s, Load(p), Check(p), Tick(stampedAt), Stamp(p));
  }

  lemma {:induction false} RunFour(plan: Plan, s: State, w: Step, x: Step, y: Step, z: Step)
    ensures Run(plan, s, [w, x, y, z]) == Next(plan, Next(plan, Next(plan, Next(plan, s, w), x), y), z)
  {
    hide Next;
    assert [w, x, y, z][1..] == [x, y, z] && [x, y, z][1..] == [y, z] && [y, z][1..] == [z] && [z][1..] == [];
    var a := Next(plan, s, w);
    assert Run(plan, s, [w, x, y, z]) == Run(plan, a, [x, y, z]) == Run(plan, Next(plan, a, x), [y, z]);
    assert Run(plan, Next(plan, a, x), [y, z]) == Run(plan, Next(plan, Next(plan, a, x), y), [z]);
  }

  lemma {:induction false} AloneRecounted(plan: Plan, s: State, p: nat, reset: Option<real>, created: real, at: real)
    requires p in s.requests && s.requests[p] == Stamped(reset, created) && s.now <= at
    requires Used(s.log[p := created], Cutoff(StartOf(plan, at), reset)) <= plan.limit
    ensures Run(plan, s, [Insert(p), Tick(at), Cut(p), Recount(p), Delete(p)])
         == State(at, s.reset, s.log[p := created], s.requests[p := Accepted])
  {
    hide Used;
    var four := [Insert(p), Tick(at), Cut(p), Recount(p)];
    RunFour(plan, s, Insert(p), Tick(at), Cut(p), Recount(p));
    var end := Run(plan, s, four);
    assert end == State(at, s.reset, s.log[p := created], s.requests[p := Accepted]);
    RunAppend(plan, s, four, [Delete(p)]);
    assert [Delete(p)][1..] == [] && Run(plan, end, [Delete(p)]) == end;
    assert four + [Delete(p)] == [Insert(p), Tick(at), Cut(p), Recount(p), Delete(p)];
  }

  lemma {:induction false} AloneRefused(plan: Plan, s: State, p: nat, at: real)
    requires p in s.requests && s.requests[p] == Refused && s.now <= at
    ensures Run(plan, s, [Insert(p), Tick(at), Cut(p), Recount(p), Delete(p)]) == s.(now := at)
  {
    hide Used;
    var four := [Insert(p), Tick(at), Cut(p), Recount(p)];
    RunFour(plan, s, Insert(p), Tick(at), Cut(p), Recount(p));
    RunAppend(plan, s, four, [Delete(p)]);
    assert [Delete(p)][1..] == [] && Run(plan, s.(now := at), [Delete(p)]) == s.(now := at);
    assert four + [Delete(p)] == [Insert(p), Tick(at), Cut(p), Recount(p), Delete(p)];
  }

  class QuestionLog {
    const plan: Plan
    var log: Log

    constructor (plan: Plan)
      ensures this.plan == plan && log == map[]
    {
      this.plan, log := plan, map[];
    }

    /**
      The view, seen from one request; `others` are the rows other requests insert before it
      recounts. With nothing else in flight a question is accepted exactly when one is left.
    */
    method Ask(p: nat, reset: Option<real>, others: Log, checkedAt: real, stampedAt: real, recountedAt: real)
      returns (accepted: bool)
      requires p !in log && p !in others && checkedAt <= recountedAt
      modifies this
      ensures accepted <==>
                && Used(old(log), Cutoff(StartOf(plan, checkedAt), reset)) < plan.limit
                && Used(old(log)[p := stampedAt] + others, Cutoff(StartOf(plan, recountedAt), reset)) <= plan.limit
      ensures accepted ==> log == old(log)[p := stampedAt] + others
      ensures !accepted ==> log == if Used(old(log), Cutoff(StartOf(plan, checkedAt), reset)) >= plan.limit
                                   then old(log) else old(log) + others
      ensures others == map[] ==> (accepted <==> Used(old(log), Cutoff(StartOf(plan, checkedAt), reset)) < plan.limit)
    {
      ghost var before := log;
      if Used(log, Cutoff(StartOf(plan, checkedAt), reset)) >= plan.limit {
        return false;
      }
      log := log[p := stampedAt];
      log := log + others;
      if Used(log, Cutoff(StartOf(plan, recountedAt), reset)) > plan.limit {
        log := log - {p};
        accepted := false;
        assert log == before + others;
      } else {
        accepted := true;
      }
      UsedGrows(before, p, stampedAt, Cutoff(StartOf(plan, checkedAt), reset),
                Cutoff(StartOf(plan, recountedAt), reset));
      assert others == map[] ==> before[p := stampedAt] + others == before[p := stampedAt];
    }
  }
}
