/**
  What is open to a person once a list of requests has been applied or delegated: which row of
  the list decides, and which layers it opens.
*/
module Outcomes {
  import opened Wrappers
  import opened Text
  import opened Access
  import opened TeamRuns

  /** `i` is the first row for the car that `ok` lets through. */
  ghost predicate Decides(rows: seq<Request>, car: nat, ok: Request -> bool, i: nat) {
    && i < |rows| && rows[i].car == car && ok(rows[i])
    && forall j :: 0 <= j < i && rows[j].car == car ==> !ok(rows[j])
  }

  ghost predicate NoneDecides(rows: seq<Request>, car: nat, ok: Request -> bool) {
    forall i :: 0 <= i < |rows| && rows[i].car == car ==> !ok(rows[i])
  }

  /** Filtering keeps the order: what is kept of a list is what is kept of its parts, one after the other. */
  lemma {:induction false} KeepAppend(a: Docs, b: Docs, allowed: set<string>)
    ensures Keep(a + b, allowed) == Keep(a, allowed) + Keep(b, allowed)
  {
    if a == [] {
      assert a + b == b;
    } else {
      assert (a + b)[0] == a[0] && (a + b)[1..] == a[1..] + b;
      KeepAppend(a[1..], b, allowed);
      var first := if a[0] in allowed then [a[0]] else [];
      assert first + (Keep(a[1..], allowed) + Keep(b, allowed)) == first + Keep(a[1..], allowed) + Keep(b, allowed);
    }
  }

  lemma {:induction false} SortedFirst(s: set<string>)
    requires s != {}
    ensures var docs := Sorted(s);
            && docs != [] && docs[0] in s && docs[1..] == Sorted(s - {docs[0]})
            && forall q :: q in s && q != docs[0] ==> Before(docs[0], q)
  {
    FirstExists(s);
    FirstUnique(s);
    var first :| first in s && forall q :: q in s ==> !Before(q, first);
    assert Sorted(s) == [first] + Sorted(s - {first});
    hide Sorted;
    forall q | q in s && q != first ensures Before(first, q) { BeforeTotal(first, q); }
  }

  /** A set is listed in strictly alphabetical order, each layer once. */
  lemma {:induction false} SortedRises(s: set<string>, i: nat, j: nat)
    requires i < j < |Sorted(s)|
    ensures Before(Sorted(s)[i], Sorted(s)[j])
    decreases s
  {
    hide Sorted, Before;
    SortedFirst(s);
    var docs := Sorted(s);
    assert docs[1..][j - 1] == docs[j];
    if i > 0 {
      assert docs[1..][i - 1] == docs[i];
      SortedRises(s - {docs[0]}, i - 1, j - 1);
    } else {
      assert docs[1..][j - 1] in Members(docs[1..]);
    }
  }

  // ---------------------------------------------------------------- delegation

  /** The layers of a purchase, or of a direct grant: the listed ones, and all of them for an empty list. */
  function Layers(docs: Docs): set<string> {
    if docs == [] then VALID_PACKAGES else Members(docs)
  }

  /**
    What a manager may pass on of a car: what the company bought of it, else the real layers of
    their own direct grant.
  */
  function PassedOn(co: Company, manager: Grants, car: nat): set<string>
    requires car in co.scope || car in manager
  {
    if car in co.scope then Layers(co.scope[car]) else Layers(manager[car].docs) * VALID_PACKAGES
  }

  predicate InReach(co: Company, manager: Grants, car: nat) {
    car in co.scope || (car in manager && manager[car].adminGranted)
  }

  ghost predicate Worth(r: Request, allowed: set<string>) {
    r.docs == [] || exists d :: d in r.docs && d in allowed
  }

  /** The grant that a deciding row leaves: the layers it names within reach, or all within reach when it names none. */
  ghost predicate PassesOn(g: Grant, r: Request, allowed: set<string>, bought: bool) {
    && (g.adminGranted <==> !bought)
    && (r.docs == [] ==> Members(g.docs) == allowed)
    && (r.docs != [] ==> g.docs == Keep(r.docs, allowed) && Members(g.docs) == Members(r.docs) * allowed)
  }

  /**
    What delegation leaves of a car. Outside the manager's reach nothing changes. Within it the
    first row for the car that names no layers, or names one in reach, decides; without such a
    row the car is closed. What is open then is what the row passes on, or every layer when the
    manager has none to pass on.
  */
  ghost predicate Passes(co: Company, manager: Grants, employee: Grants, rows: seq<Request>, car: nat, after: Grants) {
    if !InReach(co, manager, car) then
      (car in after <==> car in employee) && (car in employee ==> after[car] == employee[car])
    else
      var allowed := PassedOn(co, manager, car);
      && (NoneDecides(rows, car, (r: Request) => Worth(r, allowed)) ==> car !in after)
      && forall i: nat :: Decides(rows, car, (r: Request) => Worth(r, allowed), i) ==>
           && car in after && PassesOn(after[car], rows[i], allowed, car in co.scope)
           && var open := if rows[i].docs == [] then allowed else Members(rows[i].docs) * allowed;
              CarDocuments(co, after, car) == Some(if open == {} then VALID_PACKAGES else open * VALID_PACKAGES)
  }

  lemma {:induction false} DelegationOutcome(co: Company, manager: Grants, employee: Grants, rows: seq<Request>,
                                             car: nat)
    ensures Passes(co, manager, employee, rows, car, Delegated(co, manager, employee, rows))
  {
    DelegatedAt(co, manager, employee, rows, car);
    if InReach(co, manager, car) {
      ReachIs(co, manager, car);
      var allowed := PassedOn(co, manager, car);
      var ok := (r: Request) => Worth(r, allowed);
      forall r: Request | r.car == car ensures ok(r) <==> DelegatedRow(co, manager, r).Some? {
        RowPassesOn(co, manager, r);
      }
      FirstDecides(co, manager, rows, car, ok);
      var after := Delegated(co, manager, employee, rows);
      forall i: nat | Decides(rows, car, ok, i)
        ensures car in after && PassesOn(after[car], rows[i], allowed, car in co.scope)
        ensures var open := if rows[i].docs == [] then allowed else Members(rows[i].docs) * allowed;
                CarDocuments(co, after, car) == Some(if open == {} then VALID_PACKAGES else open * VALID_PACKAGES)
      {
        hide Delegated, FirstDelegated, PassesOn;
        RowPassesOn(co, manager, rows[i]);
      }
    }
  }

  lemma {:induction false} ReachIs(co: Company, manager: Grants, car: nat)
    requires InReach(co, manager, car)
    ensures Grantable(co, manager, car) == Some(PassedOn(co, manager, car))
  {
    assert VALID_PACKAGES * VALID_PACKAGES == VALID_PACKAGES;
  }

  lemma {:induction false} DelegatedAt(co: Company, manager: Grants, employee: Grants, rows: seq<Request>, car: nat)
    ensures var after := Delegated(co, manager, employee, rows);
            if Grantable(co, manager, car).Some? then
              && (car in after <==> FirstDelegated(co, manager, rows, car).Some?)
              && (car in after ==> after[car] == FirstDelegated(co, manager, rows, car).value)
            else (car in after <==> car in employee) && (car in employee ==> after[car] == employee[car])
  {
    hide DelegatedRow, Grantable;
    if FirstDelegated(co, manager, rows, car).Some? {
      var a := FirstDelegatedRow(co, manager, rows, car);
      assert a.car in RowCars(rows);
    }
  }

  /** Layers within reach, as they are finally read. */
  lemma {:induction false} ReadBack(co: Company, car: nat, g: Grant, open: set<string>)
    requires g.adminGranted <==> car !in co.scope
    requires Members(g.docs) == open && (car in co.scope ==> open != {} && open <= Layers(co.scope[car]))
    ensures CarDocuments(co, map[car := g], car) == Some(if open == {} then VALID_PACKAGES else open * VALID_PACKAGES)
  {
    if car in co.scope {
      assert ScopeOf(co, car) == Layers(co.scope[car]);
      assert (open * VALID_PACKAGES) * ScopeOf(co, car) == open * VALID_PACKAGES;
    }
  }

  lemma {:induction false} RowPassesOn(co: Company, manager: Grants, r: Request)
    requires InReach(co, manager, r.car)
    ensures var allowed := PassedOn(co, manager, r.car);
            && (DelegatedRow(co, manager, r).Some? <==> Worth(r, allowed))
            && (DelegatedRow(co, manager, r).Some? ==>
                  var g := DelegatedRow(co, manager, r).value;
                  var open := if r.docs == [] then allowed else Members(r.docs) * allowed;
                  && PassesOn(g, r, allowed, r.car in co.scope)
                  && CarDocuments(co, map[r.car := g], r.car)
                     == Some(if open == {} then VALID_PACKAGES else open * VALID_PACKAGES))
  {
    ReachIs(co, manager, r.car);
    var allowed := PassedOn(co, manager, r.car);
    if r.docs != [] {
      var kept := Keep(r.docs, allowed);
      assert Members(kept) == Members(r.docs) * allowed;
      if kept != [] { assert kept[0] in Members(kept) && kept[0] in r.docs && kept[0] in allowed; }
      if d :| d in r.docs && d in allowed { assert d in Members(kept); }
    }
    if DelegatedRow(co, manager, r).Some? {
      var open := if r.docs == [] then allowed else Members(r.docs) * allowed;
      hide CarDocuments;
      ReadBack(co, r.car, DelegatedRow(co, manager, r).value, open);
    }
  }

  lemma {:induction false} FirstDecides(co: Company, manager: Grants, rows: seq<Request>, car: nat, ok: Request -> bool)
    requires forall r: Request :: r.car == car ==> (ok(r) <==> DelegatedRow(co, manager, r).Some?)
    ensures NoneDecides(rows, car, ok) ==> FirstDelegated(co, manager, rows, car).None?
    ensures forall i: nat :: Decides(rows, car, ok, i) ==>
         FirstDelegated(co, manager, rows, car) == DelegatedRow(co, manager, rows[i])
  {
    hide DelegatedRow;
    if rows != [] {
      var rest := rows[1..];
      FirstDecides(co, manager, rest, car, ok);
      if NoneDecides(rows, car, ok) {
        assert rows[0].car == car ==> !ok(rows[0]);
        forall i | 0 <= i < |rest| && rest[i].car == car ensures !ok(rest[i]) { assert rows[i + 1] == rest[i]; }
      }
      forall i: nat | Decides(rows, car, ok, i)
        ensures FirstDelegated(co, manager, rows, car) == DelegatedRow(co, manager, rows[i])
      {
        if i > 0 {
          forall j | 0 <= j < i - 1 && rest[j].car == car ensures !ok(rest[j]) { assert rows[j + 1] == rest[j]; }
          assert Decides(rest, car, ok, i - 1);
        }
      }
    }
  }

  // ---------------------------------------------------------- applying a list

  predicate WantsAdmin(r: Request, overridePurchase: bool, allowAdmin: bool) {
    allowAdmin && (r.adminGranted || overridePurchase)
  }

  /**
    What applying a list leaves of a car that exists: the first row for it that may be stored
    decides, which is any row of a purchased car and else one that asks for an admin grant, from a
    caller who may give one. An admin grant opens the real layers it names, any other the
    purchased ones; when there are none of these, all of them.
  */
  ghost predicate Stores(co: Company, rows: seq<Request>, overridePurchase: bool, allowAdmin: bool, car: nat,
                          after: Grants) {
    var ok := (r: Request) => car in co.scope || WantsAdmin(r, overridePurchase, allowAdmin);
    && (car !in co.cars ==> car !in after)
    && (NoneDecides(rows, car, ok) ==> car !in after)
    && forall i: nat :: car in co.cars && Decides(rows, car, ok, i) ==>
         var admin := WantsAdmin(rows[i], overridePurchase, allowAdmin);
         var reach := if admin then VALID_PACKAGES else Layers(co.scope[car]);
         var named := Members(rows[i].docs) * reach;
         && car in after && after[car] == Grant(Keep(rows[i].docs, reach), admin)
         && CarDocuments(co, after, car) == Some((if named == {} then reach else named) * VALID_PACKAGES)
  }

  lemma {:induction false} AppliedOutcome(co: Company, rows: seq<Request>, overridePurchase: bool, allowAdmin: bool,
                                          car: nat)
    ensures Stores(co, rows, overridePurchase, allowAdmin, car, Applied(co, rows, overridePurchase, allowAdmin))
  {
    var after := Applied(co, rows, overridePurchase, allowAdmin);
    var ok := (r: Request) => car in co.scope || WantsAdmin(r, overridePurchase, allowAdmin);
    if car in co.cars {
      FirstStored(co, rows, overridePurchase, allowAdmin, car, ok);
      forall i: nat | Decides(rows, car, ok, i)
        ensures var admin := WantsAdmin(rows[i], overridePurchase, allowAdmin);
                var reach := if admin then VALID_PACKAGES else Layers(co.scope[car]);
                var named := Members(rows[i].docs) * reach;
                && car in after && after[car] == Grant(Keep(rows[i].docs, reach), admin)
                && CarDocuments(co, after, car) == Some((if named == {} then reach else named) * VALID_PACKAGES)
      {
        var admin := WantsAdmin(rows[i], overridePurchase, allowAdmin);
        var reach := if admin then VALID_PACKAGES else Layers(co.scope[car]);
        assert after[car] == Grant(Keep(rows[i].docs, reach), admin);
        hide Applied, FirstAdmitted, Admitted;
        Reads(co, car, after, rows[i].docs, admin);
      }
    }
  }

  lemma {:induction false} Reads(co: Company, car: nat, grants: Grants, docs: Docs, admin: bool)
    requires admin || car in co.scope
    requires var reach := if admin then VALID_PACKAGES else Layers(co.scope[car]);
             car in grants && grants[car] == Grant(Keep(docs, reach), admin)
    ensures var reach := if admin then VALID_PACKAGES else Layers(co.scope[car]);
            var named := Members(docs) * reach;
            CarDocuments(co, grants, car) == Some((if named == {} then reach else named) * VALID_PACKAGES)
  {
    var reach := if admin then VALID_PACKAGES else Layers(co.scope[car]);
    var named := Members(docs) * reach;
    assert Members(Keep(docs, reach)) == named;
    assert (named * VALID_PACKAGES) * reach == named * VALID_PACKAGES;
    assert VALID_PACKAGES * VALID_PACKAGES == VALID_PACKAGES;
  }

  lemma {:induction false} FirstStored(co: Company, rows: seq<Request>, overridePurchase: bool, allowAdmin: bool,
                                       car: nat, ok: Request -> bool)
    requires forall r: Request :: r.car == car ==> (ok(r) <==> Admitted(co, r, overridePurchase, allowAdmin).Some?)
    ensures NoneDecides(rows, car, ok) ==> FirstAdmitted(co, rows, overridePurchase, allowAdmin, car).None?
    ensures forall i: nat :: Decides(rows, car, ok, i) ==>
              FirstAdmitted(co, rows, overridePurchase, allowAdmin, car)
                == Admitted(co, rows[i], overridePurchase, allowAdmin)
  {
    hide Admitted;
    if rows != [] {
      var rest := rows[1..];
      FirstStored(co, rest, overridePurchase, allowAdmin, car, ok);
      if NoneDecides(rows, car, ok) {
        assert rows[0].car == car ==> !ok(rows[0]);
        forall i | 0 <= i < |rest| && rest[i].car == car ensures !ok(rest[i]) { assert rows[i + 1] == rest[i]; }
      }
      forall i: nat | Decides(rows, car, ok, i)
        ensures FirstAdmitted(co, rows, overridePurchase, allowAdmin, car)
             == Admitted(co, rows[i], overridePurchase, allowAdmin)
      {
        if i > 0 {
          forall j | 0 <= j < i - 1 && rest[j].car == car ensures !ok(rest[j]) { assert rows[j + 1] == rest[j]; }
          assert Decides(rest, car, ok, i - 1);
        }
      }
    }
  }

  // ---------------------------------------------------------- compiling a seat

  /**
    Beyond the purchase a row counts when it names no layers, or one the platform admin granted, or
    there is no list.
  */
  ghost predicate Touches(r: Request, held: set<string>) {
    held == {} || Worth(r, held)
  }

  /**
    What a compile leaves of a car, whatever list is stored on the seat. Of a purchased car the
    first row gives the purchased layers it names, or all of them. Of a car the platform admin
    granted beyond the purchase the first row that counts gives the granted layers it names, or
    all of them when it names none. Every other car is closed.
  */
  ghost predicate Compiles(co: Company, grants: Grants, rows: seq<Request>, car: nat, after: Grants) {
    if car !in co.cars || (car !in co.scope && !(car in grants && grants[car].adminGranted)) then car !in after
    else if car in co.scope then
      && (NoneDecides(rows, car, (r: Request) => true) ==> car !in after)
      && forall i: nat :: Decides(rows, car, (r: Request) => true, i) ==>
           var named := Members(rows[i].docs) * Layers(co.scope[car]);
           CarDocuments(co, after, car) == Some((if named == {} then Layers(co.scope[car]) else named) * VALID_PACKAGES)
    else
      var held := Members(grants[car].docs);
      && (NoneDecides(rows, car, (r: Request) => Touches(r, held)) ==> car !in after)
      && forall i: nat :: Decides(rows, car, (r: Request) => Touches(r, held), i) ==>
           var named := if held == {} then Members(rows[i].docs)
                        else if rows[i].docs == [] then held else Members(rows[i].docs) * held;
           var open := named * VALID_PACKAGES;
           CarDocuments(co, after, car) == Some(if open == {} then VALID_PACKAGES else open)
  }

  lemma {:induction false} FirstCompiled(co: Company, grants: Grants, rows: seq<Request>, car: nat, ok: Request -> bool)
    requires forall r: Request :: r.car == car ==> (ok(r) <==> RowGrant(co, grants, r).Some?)
    ensures NoneDecides(rows, car, ok) ==> FirstGrant(co, grants, rows, car).None?
    ensures forall i: nat :: Decides(rows, car, ok, i) ==>
              FirstGrant(co, grants, rows, car) == RowGrant(co, grants, rows[i])
  {
    hide RowGrant;
    if rows != [] {
      var rest := rows[1..];
      FirstCompiled(co, grants, rest, car, ok);
      if NoneDecides(rows, car, ok) {
        assert rows[0].car == car ==> !ok(rows[0]);
        forall i | 0 <= i < |rest| && rest[i].car == car ensures !ok(rest[i]) { assert rows[i + 1] == rest[i]; }
      }
      forall i: nat | Decides(rows, car, ok, i)
        ensures FirstGrant(co, grants, rows, car) == RowGrant(co, grants, rows[i])
      {
        if i > 0 {
          forall j | 0 <= j < i - 1 && rest[j].car == car ensures !ok(rest[j]) { assert rows[j + 1] == rest[j]; }
          assert Decides(rest, car, ok, i - 1);
        }
      }
    }
  }

  lemma {:induction false} KeepsSome(docs: Docs, allowed: set<string>)
    ensures Keep(docs, allowed) != [] <==> exists d :: d in docs && d in allowed
  {
    var kept := Keep(docs, allowed);
    if kept != [] { assert kept[0] in Members(kept) && kept[0] in docs && kept[0] in allowed; }
    if d :| d in docs && d in allowed { assert d in Members(kept); }
  }

  lemma {:induction false} BoughtRow(co: Company, grants: Grants, r: Request)
    requires r.car in co.cars && r.car in co.scope
    ensures RowGrant(co, grants, r) == Some(Grant(Keep(r.docs, Layers(co.scope[r.car])), false))
  {}

  lemma {:induction false} HeldRow(co: Company, grants: Grants, r: Request)
    requires r.car in co.cars && HeldAdmin(co, grants, r.car)
    ensures var held := Members(grants[r.car].docs);
            && (RowGrant(co, grants, r).Some? <==> Touches(r, held))
            && (RowGrant(co, grants, r).Some? ==>
                  var g := RowGrant(co, grants, r).value;
                  var named := if held == {} then Members(r.docs)
                               else if r.docs == [] then held else Members(r.docs) * held;
                  g.adminGranted && Members(g.docs) == named * VALID_PACKAGES)
  {
    var held := Members(grants[r.car].docs);
    assert Worth(r, held) <==> r.docs == [] || Keep(r.docs, held) != [] by { KeepsSome(r.docs, held); }
    hide Worth;
    if held == {} {
      assert RowGrant(co, grants, r) == Some(Grant(Keep(r.docs, VALID_PACKAGES), true));
    } else if r.docs == [] {
      assert RowGrant(co, grants, r) == Some(Grant(Keep(Sorted(held), VALID_PACKAGES), true));
      assert Members(Sorted(held)) == held;
    } else if Keep(r.docs, held) != [] {
      assert RowGrant(co, grants, r) == Some(Grant(Keep(Keep(r.docs, held), VALID_PACKAGES), true));
    }
  }

  lemma {:induction false} HeldReads(co: Company, after: Grants, car: nat)
    requires car in after && after[car].adminGranted && Members(after[car].docs) <= VALID_PACKAGES
    ensures var open := Members(after[car].docs);
            CarDocuments(co, after, car) == Some(if open == {} then VALID_PACKAGES else open)
  {
    assert Members(after[car].docs) * VALID_PACKAGES == Members(after[car].docs);
  }

  lemma {:induction false} CompiledOutcome(co: Company, grants: Grants, rows: seq<Request>, car: nat)
    ensures Compiles(co, grants, rows, car, Synced(co, grants, rows))
  {
    var after := Synced(co, grants, rows);
    SyncedAt(co, grants, rows, car);
    if car in co.cars && car in co.scope {
      var ok := (r: Request) => true;
      forall r: Request | r.car == car ensures RowGrant(co, grants, r).Some? { BoughtRow(co, grants, r); }
      FirstCompiled(co, grants, rows, car, ok);
      forall i: nat | Decides(rows, car, ok, i)
        ensures var named := Members(rows[i].docs) * Layers(co.scope[car]);
                CarDocuments(co, after, car)
                  == Some((if named == {} then Layers(co.scope[car]) else named) * VALID_PACKAGES)
      {
        hide Synced, RowGrant, FirstGrant, CarDocuments, Members, Keep;
        BoughtRow(co, grants, rows[i]);
        Reads(co, car, after, rows[i].docs, false);
      }
    } else if car in co.cars && HeldAdmin(co, grants, car) {
      HeldOutcome(co, grants, rows, car);
    } else {
      hide Synced, CarDocuments, Members, Keep;
      if car in after { var a := FirstGrantRow(co, grants, rows, car); }
    }
  }

  lemma {:induction false} HeldOutcome(co: Company, grants: Grants, rows: seq<Request>, car: nat)
    requires car in co.cars && HeldAdmin(co, grants, car)
    ensures Compiles(co, grants, rows, car, Synced(co, grants, rows))
  {
    var after, held := Synced(co, grants, rows), Members(grants[car].docs);
    SyncedAt(co, grants, rows, car);
    var ok := (r: Request) => Touches(r, held);
    forall r: Request | r.car == car ensures ok(r) <==> RowGrant(co, grants, r).Some? { HeldRow(co, grants, r); }
    FirstCompiled(co, grants, rows, car, ok);
    hide Synced, RowGrant, FirstGrant, CarDocuments, Members, Keep;
    forall i: nat | Decides(rows, car, ok, i)
      ensures var named := if held == {} then Members(rows[i].docs)
                           else if rows[i].docs == [] then held else Members(rows[i].docs) * held;
              var open := named * VALID_PACKAGES;
              CarDocuments(co, after, car) == Some(if open == {} then VALID_PACKAGES else open)
    {
      HeldRow(co, grants, rows[i]);
      HeldReads(co, after, car);
    }
  }

  /** What the editor lets through of a posted list: the rows of the cars it covers, each with the layers it covers. */
  lemma {:induction false} CleanedRows(co: Company, occupant: Grants, posted: seq<Request>, r: Request)
    ensures r in CleanRows(co, occupant, posted) <==>
              exists i :: 0 <= i < |posted| && posted[i].car == r.car && !r.adminGranted
                && (if r.car in co.scope then r.docs == Keep(posted[i].docs, Layers(co.scope[r.car]))
                    else r.car in occupant && occupant[r.car].adminGranted
                         && r.docs == Keep(posted[i].docs, Members(occupant[r.car].docs)))
  {
    hide Keep, Members;
    if posted != [] {
      var rest := posted[1..];
      CleanedRows(co, occupant, rest, r);
      assert forall i :: 0 <= i < |rest| ==> rest[i] == posted[i + 1];
      assert forall i :: 0 < i < |posted| ==> posted[i] == rest[i - 1];
    }
  }

  // ------------------------------------------------------------------ one step

  /** What one step of a company does to each person's cars; those it does not name keep theirs. */
  lemma {:induction false} StepOutcome(t: Team, step: Step, user: nat, car: nat)
    requires user in t.people
    ensures var end := Next(t, step);
            && end.people.Keys == t.people.Keys && end.co.cars == t.co.cars
            && match step
               case Compile(u, accesses) =>
                 && end.co == t.co && (user != u ==> end.people[user] == t.people[user])
                 && (user == u ==> Compiles(t.co, t.people[user], accesses, car, end.people[user]))
               case Delegate(manager, employee, rows) =>
                 && end.co == t.co
                 && (user != employee || manager !in t.people ==> end.people[user] == t.people[user])
                 && (user == employee && manager in t.people ==>
                       Passes(t.co, t.people[manager], t.people[user], rows, car, end.people[user]))
               case GrantTo(u, accesses, override) =>
                 && end.co == t.co && (user != u ==> end.people[user] == t.people[user])
                 && (user == u ==> Stores(t.co, accesses, override, true, car, end.people[user]))
               case Rescope(accesses) => end == Rescoped(t, accesses)
               case BuyAll => end == WithAllCars(t)
  {
    hide Compiles, Passes, Stores, Synced, Delegated, Applied, Bought;
    match step {
      case Compile(u, accesses) => CompiledOutcome(t.co, t.people[user], accesses, car);
      case Delegate(manager, employee, rows) =>
        if manager in t.people { DelegationOutcome(t.co, t.people[manager], t.people[user], rows, car); }
      case GrantTo(u, accesses, override) => AppliedOutcome(t.co, accesses, override, true, car);
      case Rescope(accesses) =>
      case BuyAll =>
    }
  }
}
