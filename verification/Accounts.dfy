/** The rows behind an account as the program rewrites them: its grants, its AI flag and its seat's permission. */
module Accounts {
  import opened Wrappers
  import opened Access

  /** A person's grant for a car, if any. */
  function Lookup(grants: Grants, car: nat): Option<Grant> {
    if car in grants then Some(grants[car]) else None
  }

  lemma {:induction false} SameLookups(a: Grants, b: Grants)
    requires forall car :: Lookup(a, car) == Lookup(b, car)
    ensures a == b
  {
    forall car ensures car in a <==> car in b { assert Lookup(a, car) == Lookup(b, car); }
    forall car | car in a ensures a[car] == b[car] { assert Lookup(a, car) == Lookup(b, car); }
  }

  lemma {:induction false} FirstAdmittedAppend(co: Company, rows: seq<Request>, r: Request, over: bool, allow: bool,
                                               car: nat)
    ensures FirstAdmitted(co, rows + [r], over, allow, car)
         == if FirstAdmitted(co, rows, over, allow, car).Some? then FirstAdmitted(co, rows, over, allow, car)
            else if r.car == car then Admitted(co, r, over, allow) else None
  {
    if rows == [] {
      assert rows + [r] == [r];
    } else {
      assert (rows + [r])[1..] == rows[1..] + [r];
      FirstAdmittedAppend(co, rows[1..], r, over, allow, car);
    }
  }

  lemma {:induction false} FirstAdmittedKnown(co: Company, rows: seq<Request>, over: bool, allow: bool, car: nat)
    ensures FirstAdmitted(co, rows, over, allow, car).Some? ==> car in co.cars
  {
    if rows != [] { FirstAdmittedKnown(co, rows[1..], over, allow, car); }
  }

  lemma {:induction false} AppliedAppend(co: Company, rows: seq<Request>, r: Request, over: bool, allow: bool)
    ensures Applied(co, rows + [r], over, allow)
         == if r.car in Applied(co, rows, over, allow) || Admitted(co, r, over, allow).None?
            then Applied(co, rows, over, allow)
            else Applied(co, rows, over, allow)[r.car := Admitted(co, r, over, allow).value]
  {
    hide Admitted, FirstAdmitted, Applied;
    var now, then' := Applied(co, rows, over, allow), Applied(co, rows + [r], over, allow);
    AppliedView(co, rows, over, allow, r.car);
    var next := if r.car in now || Admitted(co, r, over, allow).None? then now
                else now[r.car := Admitted(co, r, over, allow).value];
    forall car ensures Lookup(next, car) == Lookup(then', car) {
      AppliedView(co, rows, over, allow, car);
      AppliedView(co, rows + [r], over, allow, car);
      FirstAdmittedAppend(co, rows, r, over, allow, car);
    }
    SameLookups(next, then');
  }

  lemma {:induction false} AppliedView(co: Company, rows: seq<Request>, over: bool, allow: bool, car: nat)
    ensures Lookup(Applied(co, rows, over, allow), car) == FirstAdmitted(co, rows, over, allow, car)
  {
    hide Admitted, FirstAdmitted;
    FirstAdmittedKnown(co, rows, over, allow, car);
  }

  lemma {:induction false} CompiledAppend(co: Company, grants: Grants, rows: seq<Request>, r: Request)
    ensures CompiledRows(co, grants, rows + [r])
         == CompiledRows(co, grants, rows)
            + if CompiledRow(co, grants, r).Some? then [CompiledRow(co, grants, r).value] else []
  {
    hide CompiledRow;
    if rows == [] {
      assert rows + [r] == [r] && CompiledRows(co, grants, [r][1..]) == [];
    } else {
      assert (rows + [r])[0] == rows[0] && (rows + [r])[1..] == rows[1..] + [r];
      CompiledAppend(co, grants, rows[1..], r);
    }
  }

  lemma {:induction false} CleanAppend(co: Company, occupant: Grants, rows: seq<Request>, r: Request)
    ensures CleanRows(co, occupant, rows + [r])
         == CleanRows(co, occupant, rows) + CleanRow(co, occupant, r)
  {
    hide CleanRow;
    if rows == [] {
      assert rows + [r] == [r] && CleanRows(co, occupant, [r][1..]) == [];
    } else {
      assert (rows + [r])[0] == rows[0] && (rows + [r])[1..] == rows[1..] + [r];
      CleanAppend(co, occupant, rows[1..], r);
    }
  }

  lemma {:induction false} FirstDelegatedAppend(co: Company, manager: Grants, rows: seq<Request>, r: Request, car: nat)
    ensures FirstDelegated(co, manager, rows + [r], car)
         == if FirstDelegated(co, manager, rows, car).Some? then FirstDelegated(co, manager, rows, car)
            else if r.car == car then DelegatedRow(co, manager, r) else None
  {
    hide DelegatedRow;
    if rows == [] {
      assert rows + [r] == [r] && [r][1..] == [];
    } else {
      assert (rows + [r])[0] == rows[0] && (rows + [r])[1..] == rows[1..] + [r];
      FirstDelegatedAppend(co, manager, rows[1..], r, car);
    }
  }

  /** Only cars within the manager's reach are delegated, and only those that were asked for. */
  lemma {:induction false} FirstDelegatedKnown(co: Company, manager: Grants, rows: seq<Request>, car: nat)
    requires FirstDelegated(co, manager, rows, car).Some?
    ensures car in RowCars(rows) && Grantable(co, manager, car).Some?
  {
    var a := FirstDelegatedRow(co, manager, rows, car);
  }

  /** What delegation leaves for one car. */
  function DelegatedAt(co: Company, manager: Grants, before: Grants, rows: seq<Request>, car: nat): Option<Grant> {
    if Grantable(co, manager, car).Some? then FirstDelegated(co, manager, rows, car)
    else if car in before then Some(before[car]) else None
  }

  lemma {:induction false} DelegatedView(co: Company, manager: Grants, before: Grants, rows: seq<Request>, car: nat)
    ensures Lookup(Delegated(co, manager, before, rows), car) == DelegatedAt(co, manager, before, rows, car)
  {
    hide Grantable, FirstDelegated;
    if FirstDelegated(co, manager, rows, car).Some? { FirstDelegatedKnown(co, manager, rows, car); }
  }

  /** What one more request changes. */
  lemma {:induction false} DelegatedAppend(co: Company, manager: Grants, before: Grants, rows: seq<Request>,
                                           r: Request, next: Grants)
    requires next == if DelegatedRow(co, manager, r).None? || FirstDelegated(co, manager, rows, r.car).Some?
                     then Delegated(co, manager, before, rows)
                     else Delegated(co, manager, before, rows)[r.car := DelegatedRow(co, manager, r).value]
    ensures next == Delegated(co, manager, before, rows + [r])
  {
    assert DelegatedRow(co, manager, r).Some? ==> Grantable(co, manager, r.car).Some?;
    hide DelegatedRow, FirstDelegated, Grantable, Delegated;
    forall car ensures Lookup(next, car) == Lookup(Delegated(co, manager, before, rows + [r]), car) {
      DelegatedView(co, manager, before, rows, car);
      DelegatedView(co, manager, before, rows + [r], car);
      FirstDelegatedAppend(co, manager, rows, r, car);
    }
    SameLookups(next, Delegated(co, manager, before, rows + [r]));
  }

  /** The cars that already have their stored request. */
  function Handled(co: Company, manager: Grants, rows: seq<Request>): set<nat> {
    set car | car in RowCars(rows) && FirstDelegated(co, manager, rows, car).Some?
  }

  lemma {:induction false} HandledIff(co: Company, manager: Grants, rows: seq<Request>, car: nat)
    ensures car in Handled(co, manager, rows) <==> FirstDelegated(co, manager, rows, car).Some?
  {
    if FirstDelegated(co, manager, rows, car).Some? { FirstDelegatedKnown(co, manager, rows, car); }
    hide FirstDelegated, RowCars;
  }

  lemma {:induction false} HandledAppend(co: Company, manager: Grants, rows: seq<Request>, r: Request)
    ensures DelegatedRow(co, manager, r).Some? ==>
         Handled(co, manager, rows + [r]) == Handled(co, manager, rows) + {r.car}
    ensures DelegatedRow(co, manager, r).None? ==> Handled(co, manager, rows + [r]) == Handled(co, manager, rows)
    ensures r.car in Handled(co, manager, rows) ==> Handled(co, manager, rows + [r]) == Handled(co, manager, rows)
  {
    hide *;
    forall car ensures car in Handled(co, manager, rows + [r]) <==>
                         car in Handled(co, manager, rows) || (car == r.car && DelegatedRow(co, manager, r).Some?)
    {
      HandledIff(co, manager, rows, car);
      HandledIff(co, manager, rows + [r], car);
      FirstDelegatedAppend(co, manager, rows, r, car);
    }
  }

  /** One request: skipped when its car is handled or nothing of it is admissible, else stored. */
  lemma {:induction false} DelegateStep(co: Company, manager: Grants, before: Grants, rows: seq<Request>, r: Request)
    ensures var row, now := DelegatedRow(co, manager, r), Delegated(co, manager, before, rows);
            if r.car in Handled(co, manager, rows) || row.None? then
              Delegated(co, manager, before, rows + [r]) == now
                && Handled(co, manager, rows + [r]) == Handled(co, manager, rows)
            else
              Delegated(co, manager, before, rows + [r]) == now[r.car := row.value]
              && Handled(co, manager, rows + [r]) == Handled(co, manager, rows) + {r.car}
  {
    hide *;
    var row, now := DelegatedRow(co, manager, r), Delegated(co, manager, before, rows);
    HandledIff(co, manager, rows, r.car);
    HandledAppend(co, manager, rows, r);
    var skipped := row.None? || FirstDelegated(co, manager, rows, r.car).Some?;
    DelegatedAppend(co, manager, before, rows, r, if skipped then now else now[r.car := row.value]);
  }

  /** manager_grantable_cars: the purchase, and then what the platform admin granted beyond it. */
  method GrantableCars(co: Company, manager: Grants) returns (out: map<nat, set<string>>)
    ensures forall car :: (if car in out then Some(out[car]) else None) == Grantable(co, manager, car)
  {
    out := map car | car in co.scope :: ScopeOf(co, car);
    var todo := manager.Keys;
    while todo != {}
      invariant todo <= manager.Keys
      invariant forall car :: car in todo && car !in co.scope ==> car !in out
      invariant forall car :: car !in todo || car in co.scope ==>
          (if car in out then Some(out[car]) else None) == Grantable(co, manager, car)
      decreases todo
    {
      var car :| car in todo;
      if manager[car].adminGranted && car !in co.scope {
        out := out[car := Effective(manager[car].docs, None)];
      }
      todo := todo - {car};
    }
  }

  class Account {
    const company: Company
    const isRoot: bool              // sits in the root seat
    var grants: Grants
    var ai: bool
    var carAccess: seq<Request>     // the seat's permission
    var seatAi: bool

    constructor (company: Company, isRoot: bool)
      ensures this.company == company && this.isRoot == isRoot && grants == map[] && carAccess == [] && !ai && !seatAi
    {
      this.company, this.isRoot, grants, ai, carAccess, seatAi := company, isRoot, map[], false, [], false;
    }

    method ApplyUserAccess(rows: seq<Request>, overridePurchase: bool, allowAdmin: bool)
      modifies this`grants
      ensures grants == Applied(company, rows, overridePurchase, allowAdmin)
    {
      var seen: set<nat> := {};
      grants := map[];
      assert rows[..0] == [] && rows[..|rows|] == rows;
      for i := 0 to |rows|
        invariant grants == Applied(company, rows[..i], overridePurchase, allowAdmin)
        invariant seen == grants.Keys
      {
        var r := rows[i];
        assert rows[..i + 1] == rows[..i] + [r];
        AppliedAppend(company, rows[..i], r, overridePurchase, allowAdmin);
        if r.car !in seen && r.car in company.cars {
          if allowAdmin && (r.adminGranted || overridePurchase) {
            grants := grants[r.car := Grant(Keep(r.docs, VALID_PACKAGES), true)];
            seen := seen + {r.car};
          } else if r.car in company.scope {
            grants := grants[r.car := Grant(Keep(r.docs, ScopeOf(company, r.car)), false)];
            seen := seen + {r.car};
          }
        }
      }
    }

    /**
      apply_managed_access: what the manager controls is cleared, and each car's first admissible
      request is stored.
    */
    method ApplyManagedAccess(manager: Grants, rows: seq<Request>)
      modifies this`grants
      ensures grants == Delegated(company, manager, old(grants), rows)
    {
      var grantable := GrantableCars(company, manager);
      ghost var before := grants;
      var seen: set<nat> := {};
      grants := map car | car in grants && car !in grantable :: grants[car];
      hide *;
      assert rows[..0] == [] && rows[..|rows|] == rows;
      for i := 0 to |rows|
        invariant grants == Delegated(company, manager, before, rows[..i])
        invariant seen == Handled(company, manager, rows[..i])
      {
        var r := rows[i];
        assert rows[..i + 1] == rows[..i] + [r];
        DelegateStep(company, manager, before, rows[..i], r);
        if r.car !in seen && r.car in grantable {
          var stored := Delegate(manager, grantable[r.car], r);
          if stored.Some? {
            grants := grants[r.car := stored.value];
            seen := seen + {r.car};
          }
        }
      }
    }

    /** One request for a car the manager controls: its layers clamped, or all of the manager's when it names none. */
    method Delegate(manager: Grants, allowed: set<string>, r: Request) returns (stored: Option<Grant>)
      requires Grantable(company, manager, r.car) == Some(allowed)
      ensures stored == DelegatedRow(company, manager, r)
    {
      var docs;
      if r.docs != [] {
        docs := Keep(r.docs, allowed);
        if docs == [] { return None; }
      } else {
        docs := Sorted(allowed);
      }
      return Some(Grant(docs, r.car !in company.scope));
    }

    /** The seat's permission, compiled over the grants the account has now. */
    method SyncNodeToUser()
      modifies this`grants, this`ai
      ensures grants == Synced(company, old(grants), carAccess)
      ensures ai == (isRoot || seatAi)
    {
      var held := map car | car in grants && grants[car].adminGranted && car !in company.scope
        :: Members(grants[car].docs);
      var rows: seq<Request> := [];
      assert carAccess[..0] == [] && carAccess[..|carAccess|] == carAccess;
      for i := 0 to |carAccess|
        invariant rows == CompiledRows(company, grants, carAccess[..i])
        invariant grants == old(grants)
      {
        var a := carAccess[i];
        assert carAccess[..i + 1] == carAccess[..i] + [a];
        CompiledAppend(company, grants, carAccess[..i], a);
        if a.car in held {
          var docs := a.docs;
          if held[a.car] == {} {
            rows := rows + [Request(a.car, docs, true)];
          } else if docs == [] {
            rows := rows + [Request(a.car, Sorted(held[a.car]), true)];
          } else {
            docs := Keep(docs, held[a.car]);
            if docs != [] {
              rows := rows + [Request(a.car, docs, true)];
            }
          }
        } else {
          rows := rows + [Request(a.car, a.docs, false)];
        }
      }
      ApplyUserAccess(rows, false, true);
      ai := if isRoot then true else seatAi;
    }

    /** The account's grants, written back as the seat's permission. */
    method SyncUserToNode()
      modifies this`carAccess, this`seatAi
      ensures Lists(carAccess, grants) && |carAccess| == |grants| && seatAi == ai
    {
      carAccess := [];
      var todo := grants.Keys;
      while todo != {}
        invariant todo <= grants.Keys
        invariant |carAccess| + |todo| == |grants.Keys|
        invariant forall r :: r in carAccess ==> r.car in grants && r.docs == grants[r.car].docs
        invariant forall car :: car in grants && car !in todo ==> exists r :: r in carAccess && r.car == car
        decreases todo
      {
        var car :| car in todo;
        var row := Request(car, grants[car].docs, false);
        ghost var before := carAccess;
        carAccess := carAccess + [row];
        assert row in carAccess && forall r :: r in before ==> r in carAccess;
        todo := todo - {car};
      }
      seatAi := ai;
    }

    /** The permission editor: cleaned against the purchase and the occupant's admin grants, then compiled. */
    method SavePermission(posted: seq<Request>, aiEligible: bool)
      modifies this
      ensures carAccess == CleanRows(company, old(grants), posted) && seatAi == aiEligible
      ensures grants == Synced(company, old(grants), carAccess)
      ensures ai == (isRoot || aiEligible)
    {
      var clean: seq<Request> := [];
      assert posted[..0] == [] && posted[..|posted|] == posted;
      for i := 0 to |posted|
        invariant clean == CleanRows(company, grants, posted[..i])
        invariant grants == old(grants)
      {
        var r := posted[i];
        assert posted[..i + 1] == posted[..i] + [r];
        CleanAppend(company, grants, posted[..i], r);
        if r.car in company.scope {
          clean := clean + [Request(r.car, Keep(r.docs, ScopeOf(company, r.car)), false)];
        } else if r.car in grants && grants[r.car].adminGranted {
          clean := clean + [Request(r.car, Keep(r.docs, Members(grants[r.car].docs)), false)];
        }
      }
      carAccess, seatAi := clean, aiEligible;
      SyncNodeToUser();
    }

    /** Mirror, then compile: the grants and the flag come back as they were. */
    method MirrorAndCompile()
      requires Compiled(company, grants) && (isRoot ==> ai)
      modifies this
      ensures grants == old(grants) && ai == old(ai)
    {
      SyncUserToNode();
      RoundTrip(company, grants, carAccess);
      SyncNodeToUser();
    }
  }

  /** user_package_set: every layer of every car the account may open. */
  method UserPackageSet(co: Company, grants: Grants) returns (pkgs: set<string>)
    ensures forall d :: d in pkgs <==>
              exists car :: car in grants && CarDocuments(co, grants, car).Some?
                && d in CarDocuments(co, grants, car).value
  {
    pkgs := {};
    var todo := grants.Keys;
    while todo != {}
      invariant todo <= grants.Keys
      invariant forall d :: d in pkgs <==>
                  exists car :: car in grants && car !in todo && CarDocuments(co, grants, car).Some?
                                && d in CarDocuments(co, grants, car).value
      decreases todo
    {
      var car :| car in todo;
      var g := grants[car];
      if g.adminGranted {
        pkgs := pkgs + Effective(g.docs, None);
      } else if car in co.scope {
        pkgs := pkgs + Effective(g.docs, Some(ScopeOf(co, car)));
      }
      todo := todo - {car};
    }
  }
}
