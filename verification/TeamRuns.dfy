/**
  A whole company's entitlements over time: seats are compiled, managers delegate, and the
  platform admin grants cars to people and changes what the company bought.
*/
module TeamRuns {
  import opened Wrappers
  import opened Access

  datatype Team = Team(co: Company, people: map<nat, Grants>)

  /** The new purchase: known cars, each with the real layers of its first row. */
  function Bought(co: Company, accesses: seq<Request>): (scope: map<nat, Docs>)
    ensures forall car :: car in scope ==> car in co.cars && Members(scope[car]) <= VALID_PACKAGES
  {
    if accesses == [] then map[]
    else
      var rest := Bought(co, accesses[1..]);
      if accesses[0].car in co.cars then rest[accesses[0].car := Keep(accesses[0].docs, VALID_PACKAGES)] else rest
  }

  function Pruned(grants: Grants, scope: map<nat, Docs>): Grants {
    map car | car in grants && car in scope :: grants[car]
  }

  /** admin_company_access_view: the purchase is replaced and every grant outside it deleted. */
  function Rescoped(t: Team, accesses: seq<Request>): Team {
    var scope := Bought(t.co, accesses);
    Team(t.co.(scope := scope), map u | u in t.people :: Pruned(t.people[u], scope))
  }

  /** grant_all_cars: the rest of the cars, with every layer. */
  function WithAllCars(t: Team): Team {
    var all := map car | car in t.co.cars + t.co.scope.Keys :: if car in t.co.scope then t.co.scope[car] else [];
    t.(co := t.co.(scope := all))
  }

  datatype Step =
    | Compile(user: nat, accesses: seq<Request>)
    | Delegate(manager: nat, employee: nat, rows: seq<Request>)
    | GrantTo(user: nat, accesses: seq<Request>, override: bool)
    | Rescope(accesses: seq<Request>)
    | BuyAll

  function Next(t: Team, step: Step): Team {
    match step
    case Compile(user, accesses) =>
      if user in t.people then t.(people := t.people[user := Synced(t.co, t.people[user], accesses)]) else t
    case Delegate(manager, employee, rows) =>
      if manager in t.people && employee in t.people
      then t.(people := t.people[employee := Delegated(t.co, t.people[manager], t.people[employee], rows)]) else t
    case GrantTo(user, accesses, override) =>
      if user in t.people then t.(people := t.people[user := Applied(t.co, accesses, override, true)]) else t
    case Rescope(accesses) => Rescoped(t, accesses)
    case BuyAll => WithAllCars(t)
  }

  ghost function Run(t: Team, steps: seq<Step>): Team
    decreases |steps|
  {
    if steps == [] then t else Run(Next(t, steps[0]), steps[1..])
  }

  // ------------------------------------------------------------------ ceiling

  /** The layers the platform admin may be held to for each car. */
  type Ceiling = map<nat, set<string>>

  ghost predicate GrantUnder(g: Grant, car: nat, ceiling: Ceiling) {
    g.adminGranted ==> Members(g.docs) <= VALID_PACKAGES && car in ceiling && Effective(g.docs, None) <= ceiling[car]
  }

  ghost predicate GrantsUnder(grants: Grants, ceiling: Ceiling) {
    forall car :: car in grants ==> GrantUnder(grants[car], car, ceiling)
  }

  ghost predicate Under(people: map<nat, Grants>, ceiling: Ceiling) {
    forall u :: u in people ==> GrantsUnder(people[u], ceiling)
  }

  lemma {:induction false} CompileUnder(co: Company, grants: Grants, accesses: seq<Request>, ceiling: Ceiling)
    requires GrantsUnder(grants, ceiling)
    ensures GrantsUnder(Synced(co, grants, accesses), ceiling)
  {
    hide Synced, Effective, Members;
    forall car | car in Synced(co, grants, accesses)
      ensures GrantUnder(Synced(co, grants, accesses)[car], car, ceiling)
    {
      StoredCeiling(co, grants, accesses, car);
      assert HeldAdmin(co, grants, car) ==> car in grants && GrantUnder(grants[car], car, ceiling);
    }
  }

  /** What a manager passes on beyond the purchase is no more than what was granted to them. */
  lemma {:induction false} DelegatedRowUnder(co: Company, manager: Grants, r: Request, ceiling: Ceiling)
    requires GrantsUnder(manager, ceiling) && DelegatedRow(co, manager, r).Some?
    ensures GrantUnder(DelegatedRow(co, manager, r).value, r.car, ceiling)
  {
    var g := DelegatedRow(co, manager, r).value;
    var allowed := Grantable(co, manager, r.car).value;
    if g.adminGranted {
      assert GrantUnder(manager[r.car], r.car, ceiling);
      assert allowed == Effective(manager[r.car].docs, None) && allowed <= VALID_PACKAGES;
      assert allowed != {} by {
        assert "manual" in VALID_PACKAGES;
        assert manager[r.car].docs != [] ==>
            Members(manager[r.car].docs) * VALID_PACKAGES == Members(manager[r.car].docs);
      }
      assert Members(g.docs) <= allowed && g.docs != [];
    }
  }

  lemma {:induction false} DelegateUnder(co: Company, manager: Grants, employee: Grants, rows: seq<Request>,
                                         ceiling: Ceiling)
    requires GrantsUnder(manager, ceiling) && GrantsUnder(employee, ceiling)
    ensures GrantsUnder(Delegated(co, manager, employee, rows), ceiling)
  {
    var after := Delegated(co, manager, employee, rows);
    hide DelegatedRow, FirstDelegated, GrantUnder;
    forall car | car in after ensures GrantUnder(after[car], car, ceiling) {
      if Grantable(co, manager, car).Some? {
        var a := FirstDelegatedRow(co, manager, rows, car);
        DelegatedRowUnder(co, manager, a, ceiling);
      }
    }
  }

  /** The layers that the admin rows of one person open. */
  ghost function AdminRows(grants: Grants): Ceiling {
    map car | car in grants && grants[car].adminGranted :: Effective(grants[car].docs, None)
  }

  function Reach(ceiling: Ceiling, car: nat): set<string> {
    if car in ceiling then ceiling[car] else {}
  }

  ghost function Join(a: Ceiling, b: Ceiling): Ceiling {
    map car | car in a.Keys + b.Keys :: Reach(a, car) + Reach(b, car)
  }

  /** What the platform admin has granted once a step is done. */
  ghost function Given(t: Team, step: Step, given: Ceiling): Ceiling {
    match step
    case GrantTo(user, accesses, override) =>
      if user in t.people then Join(given, AdminRows(Applied(t.co, accesses, override, true))) else given
    case _ => given
  }

  ghost function GivenBy(t: Team, steps: seq<Step>, given: Ceiling): Ceiling
    decreases |steps|
  {
    if steps == [] then given else GivenBy(Next(t, steps[0]), steps[1..], Given(t, steps[0], given))
  }

  lemma {:induction false} JoinUnder(people: map<nat, Grants>, ceiling: Ceiling, more: Ceiling)
    requires Under(people, ceiling)
    ensures Under(people, Join(ceiling, more))
  {
    hide Effective, Members;
    forall u, car | u in people && car in people[u] ensures GrantUnder(people[u][car], car, Join(ceiling, more)) {
      assert GrantsUnder(people[u], ceiling) && GrantUnder(people[u][car], car, ceiling);
    }
  }

  /** What the platform admin stores for a person is within what that call grants. */
  lemma {:induction false} GrantedUnder(co: Company, accesses: seq<Request>, override: bool, ceiling: Ceiling)
    ensures var stored := Applied(co, accesses, override, true);
            GrantsUnder(stored, Join(ceiling, AdminRows(stored)))
  {
    hide Effective, FirstAdmitted;
    var stored := Applied(co, accesses, override, true);
    forall car | car in stored ensures GrantUnder(stored[car], car, Join(ceiling, AdminRows(stored))) {
      FirstReal(co, accesses, override, car);
    }
  }

  lemma {:induction false} FirstReal(co: Company, accesses: seq<Request>, override: bool, car: nat)
    ensures var g := FirstAdmitted(co, accesses, override, true, car);
            g.Some? && g.value.adminGranted ==> Members(g.value.docs) <= VALID_PACKAGES
  {
    if accesses != [] { FirstReal(co, accesses[1..], override, car); }
  }

  lemma {:induction false} NextUnder(t: Team, step: Step, given: Ceiling)
    requires Under(t.people, given)
    ensures Under(Next(t, step).people, Given(t, step, given))
  {
    hide Synced, Delegated, GrantUnder, Bought, Applied, Join, AdminRows;
    match step {
      case Compile(user, accesses) =>
        if user in t.people { CompileUnder(t.co, t.people[user], accesses, given); }
      case Delegate(manager, employee, rows) =>
        if manager in t.people && employee in t.people {
          DelegateUnder(t.co, t.people[manager], t.people[employee], rows, given);
        }
      case GrantTo(user, accesses, override) =>
        if user in t.people {
          JoinUnder(t.people, given, AdminRows(Applied(t.co, accesses, override, true)));
          GrantedUnder(t.co, accesses, override, given);
        }
      case Rescope(accesses) =>
        forall u | u in t.people ensures GrantsUnder(Pruned(t.people[u], Bought(t.co, accesses)), given) {
          assert GrantsUnder(t.people[u], given);
        }
      case BuyAll =>
    }
  }

  lemma {:induction false} RunUnder(t: Team, steps: seq<Step>, given: Ceiling)
    requires Under(t.people, given)
    ensures Under(Run(t, steps).people, GivenBy(t, steps, given))
    decreases |steps|
  {
    hide Next, Under, Given;
    if steps != [] {
      NextUnder(t, steps[0], given);
      RunUnder(Next(t, steps[0]), steps[1..], Given(t, steps[0], given));
    }
  }

  /** Everything the platform admin has granted to anybody in the company, car by car. */
  ghost function AdminCeiling(people: map<nat, Grants>): Ceiling {
    map car | car in AdminCars(people) :: set d | d in VALID_PACKAGES && GrantedToSomebody(people, car, d)
  }

  ghost function AdminCars(people: map<nat, Grants>): set<nat> {
    set u, car | u in people && car in people[u] && people[u][car].adminGranted :: car
  }

  ghost predicate GrantedToSomebody(people: map<nat, Grants>, car: nat, layer: string) {
    exists u :: u in people && car in people[u] && people[u][car].adminGranted
      && layer in Effective(people[u][car].docs, None)
  }

  ghost predicate RealLayers(people: map<nat, Grants>) {
    forall u, car :: u in people && car in people[u] && people[u][car].adminGranted ==>
      Members(people[u][car].docs) <= VALID_PACKAGES
  }

  lemma {:induction false} UnderOwnCeiling(people: map<nat, Grants>)
    requires RealLayers(people)
    ensures Under(people, AdminCeiling(people))
  {
    hide Effective;
    var ceiling := AdminCeiling(people);
    forall u, car | u in people && car in people[u] && people[u][car].adminGranted
      ensures car in ceiling && Effective(people[u][car].docs, None) <= ceiling[car]
    {
      assert car in AdminCars(people);
      forall d | d in Effective(people[u][car].docs, None) ensures d in ceiling[car] {
        RealOnly(people[u][car].docs, d);
        assert GrantedToSomebody(people, car, d);
      }
    }
  }

  lemma {:induction false} RealOnly(docs: Docs, d: string)
    requires d in Effective(docs, None)
    ensures d in VALID_PACKAGES
  {}

  /**
    Over every run of compiles, delegations, grants by the platform admin and changes of purchase,
    everybody stays, for each car, within what the company has bought of it now and what the
    platform admin has granted of it to somebody so far. A car that is neither is closed to everybody.
  */
  lemma {:induction false} TeamCeiling(t: Team, steps: seq<Step>, user: nat, car: nat)
    requires RealLayers(t.people) && user in Run(t, steps).people
    ensures var end, granted := Run(t, steps), GivenBy(t, steps, AdminCeiling(t.people));
            var bought := if car in end.co.scope then ScopeOf(end.co, car) else {};
            var open := CarDocuments(end.co, end.people[user], car);
            && (open.Some? ==> open.value <= bought + Reach(granted, car))
            && (open.Some? ==> car in end.co.scope || car in granted)
  {
    var granted := GivenBy(t, steps, AdminCeiling(t.people));
    UnderOwnCeiling(t.people);
    RunUnder(t, steps, AdminCeiling(t.people));
    var end := Run(t, steps);
    hide Run, GivenBy, AdminCeiling, RealLayers;
    assert GrantsUnder(end.people[user], granted);
    if car in end.people[user] { assert GrantUnder(end.people[user][car], car, granted); }
  }

  // -------------------------------------------------------- changing the purchase

  /** The layers that a posted row of a purchase stands for: the real ones it names, or all of them. */
  function Asked(r: Request): set<string> {
    var named := Members(r.docs) * VALID_PACKAGES;
    if named == {} then VALID_PACKAGES else named
  }

  lemma {:induction false} BoughtFirst(co: Company, accesses: seq<Request>, car: nat)
    ensures car in Bought(co, accesses) <==> car in co.cars && FirstPosted(accesses, car).Some?
    ensures car in Bought(co, accesses) ==>
         Bought(co, accesses)[car] == Keep(FirstPosted(accesses, car).value.docs, VALID_PACKAGES)
  {
    hide Keep;
    if accesses != [] { BoughtFirst(co, accesses[1..], car); }
  }

  /**
    A change of purchase closes every car it does not post to everybody, also to those the
    platform admin had granted it. Of a posted car people keep their row: an admin row opens what
    it opened, any other the layers it names of those the first posted row asks for. So they stay
    within what is asked for exactly when they held no admin row, or one that asks for no more.
  */
  lemma {:induction false} RescopeWithin(t: Team, accesses: seq<Request>, user: nat, car: nat)
    requires user in t.people
    ensures var after := Rescoped(t, accesses);
            var open := CarDocuments(after.co, after.people[user], car);
            && user in after.people && after.co.cars == t.co.cars
            && match FirstPosted(accesses, car)
               case None => open.None?
               case Some(r) =>
                 if car !in t.co.cars || car !in t.people[user] then open.None?
                 else
                   var g := t.people[user][car];
                   && car in after.people[user] && after.people[user][car] == g && open.Some?
                   && open.value == (if g.docs == [] then if g.adminGranted then VALID_PACKAGES else Asked(r)
                                     else if g.adminGranted then Members(g.docs) * VALID_PACKAGES
                                     else Members(g.docs) * Asked(r))
                   && (open.value <= Asked(r) <==>
                         (g.adminGranted ==>
                            (if g.docs == [] then VALID_PACKAGES else Members(g.docs) * VALID_PACKAGES) <= Asked(r)))
  {
    BoughtFirst(t.co, accesses, car);
    hide Bought;
    if car in Bought(t.co, accesses) {
      var r := FirstPosted(accesses, car).value;
      assert ScopeOf(Rescoped(t, accesses).co, car) == Asked(r);
      assert Asked(r) * VALID_PACKAGES == Asked(r);
    }
  }

  /** Buying all cars: what was bought stays as it was, every other car is bought whole, and nobody's rows change. */
  lemma {:induction false} BuyAllKeeps(t: Team, car: nat)
    ensures var after := WithAllCars(t);
            && after.people == t.people && after.co.cars == t.co.cars
            && (car in after.co.scope <==> car in t.co.scope || car in t.co.cars)
            && (car in t.co.scope ==> after.co.scope[car] == t.co.scope[car])
            && (car !in t.co.scope && car in t.co.cars ==> ScopeOf(after.co, car) == VALID_PACKAGES)
  {}

  /** Such a row outlives the change: all layers granted of car 7, which is then bought with one. */
  lemma {:induction false} RescopeLeavesWider()
    ensures var t := Team(Company({7}, map[]), map[1 := map[7 := Grant([], true)]]);
            var after := Rescoped(t, [Request(7, ["manual"], false)]);
            ScopeOf(after.co, 7) == {"manual"} && CarDocuments(after.co, after.people[1], 7) == Some(VALID_PACKAGES)
  {
    var t := Team(Company({7}, map[]), map[1 := map[7 := Grant([], true)]]);
    var accesses := [Request(7, ["manual"], false)];
    assert Keep(["manual"], VALID_PACKAGES) == ["manual"] by { assert Members(["manual"]) == {"manual"}; }
    assert accesses[1..] == [] && Bought(t.co, accesses) == map[7 := ["manual"]];
    assert Members(["manual"]) == {"manual"};
  }

  lemma {:induction false} EarlierWins(rest: map<nat, Docs>, earlier: map<nat, Docs>, car: nat, docs: Docs)
    ensures car in earlier ==> rest[car := docs] + earlier == rest + earlier
    ensures car !in earlier ==> rest[car := docs] + earlier == rest + earlier[car := docs]
  {}

  /** The loop over the posted purchase: the first row of each known car is stored. */
  method StorePurchase(co: Company, accesses: seq<Request>) returns (scope: map<nat, Docs>)
    ensures scope == Bought(co, accesses)
  {
    hide Keep, Members;
    scope := map[];
    for i := 0 to |accesses|
      invariant Bought(co, accesses) == Bought(co, accesses[i..]) + scope
    {
      var a := accesses[i];
      assert accesses[i..][0] == a && accesses[i..][1..] == accesses[i + 1..];
      EarlierWins(Bought(co, accesses[i + 1..]), scope, a.car, Keep(a.docs, VALID_PACKAGES));
      if a.car in co.cars && a.car !in scope {
        scope := scope[a.car := Keep(a.docs, VALID_PACKAGES)];
      }
    }
  }
}
