/**
  Car entitlements: the rows that grant a person document layers of a car, how a seat's
  permission is compiled into them, and what they finally allow.

  A layer list is a list of ids; an empty list means every layer within reach.
*/
module Access {
  import opened Wrappers
  import opened Text

  const VALID_PACKAGES: set<string> := {"manual", "special_tools", "parts", "standard_time", "full_spec"}

  type Docs = seq<string>

  datatype Grant = Grant(docs: Docs, adminGranted: bool)

  type Grants = map<nat, Grant>

  /** The cars that exist, and what the company bought of them. */
  datatype Company = Company(cars: set<nat>, scope: map<nat, Docs>)

  datatype Request = Request(car: nat, docs: Docs, adminGranted: bool)

  function Members(docs: Docs): (s: set<string>)
    ensures s == {} <==> docs == []
  {
    var s := set d | d in docs;
    assert docs != [] ==> docs[0] in s;
    s
  }

  lemma {:induction false} MembersAppend(a: Docs, b: Docs)
    ensures Members(a + b) == Members(a) + Members(b)
  {}

  /** The layers of a list that are allowed, in their order. */
  function Keep(docs: Docs, allowed: set<string>): (kept: Docs)
    ensures Members(kept) == Members(docs) * allowed
    ensures |kept| <= |docs|
    ensures kept == docs <==> Members(docs) <= allowed
  {
    if docs == [] then []
    else
      assert docs == [docs[0]] + docs[1..];
      MembersAppend([docs[0]], docs[1..]);
      MembersAppend(if docs[0] in allowed then [docs[0]] else [], Keep(docs[1..], allowed));
      (if docs[0] in allowed then [docs[0]] else []) + Keep(docs[1..], allowed)
  }

  /** The layers of a set as a list in alphabetical order. */
  function Sorted(s: set<string>): (docs: Docs)
    ensures Members(docs) == s
    ensures docs == [] <==> s == {}
  {
    if s == {} then []
    else
      FirstExists(s);
      FirstUnique(s);
      var first :| first in s && forall q :: q in s ==> !Before(q, first);
      MembersAppend([first], Sorted(s - {first}));
      [first] + Sorted(s - {first})
  }

  lemma {:induction false} FirstUnique(s: set<string>)
    ensures forall a, b ::
              (a in s && (forall q :: q in s ==> !Before(q, a)) && b in s && (forall q :: q in s ==> !Before(q, b)))
              ==> a == b
  {
    forall a, b | && a in s && (forall q :: q in s ==> !Before(q, a))
                  && b in s && (forall q :: q in s ==> !Before(q, b))
      ensures a == b
    {
      BeforeTotal(a, b);
    }
  }

  // ------------------------------------------------------------- what is allowed

  function ScopeOf(co: Company, car: nat): set<string>
    requires car in co.scope
  {
    if co.scope[car] != [] then Members(co.scope[car]) else VALID_PACKAGES
  }

  /** effective_documents */
  function Effective(docs: Docs, scope: Option<set<string>>): set<string> {
    if docs != [] then
      var valid := Members(docs) * VALID_PACKAGES;
      if scope.Some? then valid * scope.value else valid
    else if scope.Some? then scope.value * VALID_PACKAGES
    else VALID_PACKAGES
  }

  /** user_car_documents: None is no access to the car at all. */
  function CarDocuments(co: Company, grants: Grants, car: nat): Option<set<string>> {
    if car !in grants then None
    else if grants[car].adminGranted then Some(Effective(grants[car].docs, None))
    else if car !in co.scope then None
    else Some(Effective(grants[car].docs, Some(ScopeOf(co, car))))
  }

  /** `after` opens no car and no layer that `before` did not. */
  predicate NoWider(after: Option<set<string>>, before: Option<set<string>>) {
    after.Some? ==> before.Some? && after.value <= before.value
  }

  // ------------------------------------------------------------ applying a list

  /** What apply_user_access stores for one entry, if anything. */
  function Admitted(co: Company, r: Request, overridePurchase: bool, allowAdmin: bool): Option<Grant> {
    if r.car !in co.cars then None
    else if allowAdmin && (r.adminGranted || overridePurchase) then Some(Grant(Keep(r.docs, VALID_PACKAGES), true))
    else if r.car !in co.scope then None
    else Some(Grant(Keep(r.docs, ScopeOf(co, r.car)), false))
  }

  /** For each car the first entry that is stored wins. */
  function FirstAdmitted(co: Company, rows: seq<Request>, overridePurchase: bool, allowAdmin: bool,
                         car: nat): Option<Grant> {
    if rows == [] then None
    else if rows[0].car == car && Admitted(co, rows[0], overridePurchase, allowAdmin).Some?
    then Admitted(co, rows[0], overridePurchase, allowAdmin)
    else FirstAdmitted(co, rows[1..], overridePurchase, allowAdmin, car)
  }

  function Applied(co: Company, rows: seq<Request>, overridePurchase: bool, allowAdmin: bool): Grants {
    map car | car in co.cars && FirstAdmitted(co, rows, overridePurchase, allowAdmin, car).Some?
      :: FirstAdmitted(co, rows, overridePurchase, allowAdmin, car).value
  }

  // --------------------------------------------------------- compiling a seat

  /** Grants of the platform admin beyond the purchase; they may be narrowed but not widened. */
  predicate HeldAdmin(co: Company, grants: Grants, car: nat) {
    car in grants && grants[car].adminGranted && car !in co.scope
  }

  /** The entry that sync_node_to_user passes on for one row of the seat's permission. */
  function CompiledRow(co: Company, grants: Grants, a: Request): Option<Request> {
    if HeldAdmin(co, grants, a.car) then
      var held := Members(grants[a.car].docs);
      if held == {} then Some(Request(a.car, a.docs, true))
      else if a.docs == [] then Some(Request(a.car, Sorted(held), true))
      else
        var docs := Keep(a.docs, held);
        if docs == [] then None else Some(Request(a.car, docs, true))
    else Some(Request(a.car, a.docs, false))
  }

  function CompiledRows(co: Company, grants: Grants, accesses: seq<Request>): seq<Request> {
    if accesses == [] then []
    else
      var first := CompiledRow(co, grants, accesses[0]);
      (if first.Some? then [first.value] else []) + CompiledRows(co, grants, accesses[1..])
  }

  /** sync_node_to_user on the grants. */
  function Synced(co: Company, grants: Grants, accesses: seq<Request>): Grants {
    Applied(co, CompiledRows(co, grants, accesses), false, true)
  }

  /** What one permission row would store. */
  function RowGrant(co: Company, grants: Grants, a: Request): Option<Grant> {
    var r := CompiledRow(co, grants, a);
    if r.Some? then Admitted(co, r.value, false, true) else None
  }

  function FirstGrant(co: Company, grants: Grants, accesses: seq<Request>, car: nat): Option<Grant> {
    if accesses == [] then None
    else if accesses[0].car == car && RowGrant(co, grants, accesses[0]).Some? then RowGrant(co, grants, accesses[0])
    else FirstGrant(co, grants, accesses[1..], car)
  }

  lemma {:induction false} CompiledFirst(co: Company, grants: Grants, accesses: seq<Request>, car: nat)
    ensures FirstAdmitted(co, CompiledRows(co, grants, accesses), false, true, car)
         == FirstGrant(co, grants, accesses, car)
  {
    if accesses != [] {
      CompiledFirst(co, grants, accesses[1..], car);
      var first := CompiledRow(co, grants, accesses[0]);
      var rest := CompiledRows(co, grants, accesses[1..]);
      if first.Some? {
        assert ([first.value] + rest)[1..] == rest;
      } else {
        assert CompiledRows(co, grants, accesses) == rest;
      }
    }
  }

  /** Whatever is stored for a car was stored for one of its rows. */
  lemma {:induction false} FirstGrantRow(co: Company, grants: Grants, accesses: seq<Request>, car: nat)
    returns (a: Request)
    requires FirstGrant(co, grants, accesses, car).Some?
    ensures a in accesses && a.car == car && RowGrant(co, grants, a) == FirstGrant(co, grants, accesses, car)
  {
    if accesses[0].car == car && RowGrant(co, grants, accesses[0]).Some? {
      a := accesses[0];
    } else {
      a := FirstGrantRow(co, grants, accesses[1..], car);
    }
  }

  lemma {:induction false} SyncedAt(co: Company, grants: Grants, accesses: seq<Request>, car: nat)
    ensures car in Synced(co, grants, accesses) <==> FirstGrant(co, grants, accesses, car).Some?
    ensures car in Synced(co, grants, accesses) ==>
         Synced(co, grants, accesses)[car] == FirstGrant(co, grants, accesses, car).value
  {
    CompiledFirst(co, grants, accesses, car);
    if FirstGrant(co, grants, accesses, car).Some? {
      var a := FirstGrantRow(co, grants, accesses, car);
    }
  }

  // ------------------------------------------------------------------ ceiling

  /** The layers the platform admin granted beyond the purchase are all real layers. */
  ghost predicate AdminLayersValid(co: Company, grants: Grants) {
    forall car :: car in grants && HeldAdmin(co, grants, car) ==> Members(grants[car].docs) <= VALID_PACKAGES
  }

  lemma {:induction false} RowCeiling(co: Company, grants: Grants, a: Request)
    requires RowGrant(co, grants, a).Some?
    ensures var g := RowGrant(co, grants, a).value;
            && (g.adminGranted <==> HeldAdmin(co, grants, a.car))
            && (!g.adminGranted ==> a.car in co.scope)
            && (g.adminGranted ==> Members(g.docs) <= VALID_PACKAGES)
            && (g.adminGranted && Members(grants[a.car].docs) <= VALID_PACKAGES ==>
                  Effective(g.docs, None) <= Effective(grants[a.car].docs, None))
  {
    if HeldAdmin(co, grants, a.car) {
      var docs := CompiledRow(co, grants, a).value.docs;
      var held := Members(grants[a.car].docs);
      if held != {} && held <= VALID_PACKAGES {
        assert Members(docs) <= held && Members(docs) != {};
        assert Members(Keep(docs, VALID_PACKAGES)) == Members(docs);
      }
    }
  }

  /** What a recompile stores for a car. */
  lemma {:induction false} StoredCeiling(co: Company, grants: Grants, accesses: seq<Request>, car: nat)
    requires car in Synced(co, grants, accesses)
    ensures var g := Synced(co, grants, accesses)[car];
            && (g.adminGranted <==> HeldAdmin(co, grants, car))
            && (!g.adminGranted ==> car in co.scope)
            && (g.adminGranted ==> Members(g.docs) <= VALID_PACKAGES)
            && (g.adminGranted && Members(grants[car].docs) <= VALID_PACKAGES ==>
                  Effective(g.docs, None) <= Effective(grants[car].docs, None))
  {
    hide RowGrant, Effective, HeldAdmin, Synced;
    SyncedAt(co, grants, accesses, car);
    var a := FirstGrantRow(co, grants, accesses, car);
    RowCeiling(co, grants, a);
  }

  /** One recompile, of any permission list whatsoever. */
  lemma {:induction false} SyncCeiling(co: Company, grants: Grants, accesses: seq<Request>, car: nat)
    ensures var after := CarDocuments(co, Synced(co, grants, accesses), car);
            && (car in co.scope ==> NoWider(after, Some(ScopeOf(co, car))))
            && (car !in co.scope && after.Some? ==> HeldAdmin(co, grants, car))
            && (car !in co.scope && AdminLayersValid(co, grants) ==> NoWider(after, CarDocuments(co, grants, car)))
    ensures AdminLayersValid(co, Synced(co, grants, accesses))
  {
    hide Synced, FirstGrant;
    forall c | c in Synced(co, grants, accesses) && HeldAdmin(co, Synced(co, grants, accesses), c)
      ensures Members(Synced(co, grants, accesses)[c].docs) <= VALID_PACKAGES
    {
      StoredCeiling(co, grants, accesses, c);
    }
    if car in Synced(co, grants, accesses) {
      StoredCeiling(co, grants, accesses, car);
    }
  }

  ghost function SyncedAll(co: Company, grants: Grants, saves: seq<seq<Request>>): Grants
    decreases |saves|
  {
    if saves == [] then grants else SyncedAll(co, Synced(co, grants, saves[0]), saves[1..])
  }

  /**
    Any sequence of recompiles: a purchased car stays within the company's scope, any other
    car stays within what the platform admin had granted, and no other car is opened.
  */
  lemma {:induction false} RunCeiling(co: Company, grants: Grants, saves: seq<seq<Request>>, car: nat)
    requires AdminLayersValid(co, grants) && saves != []
    ensures var after := CarDocuments(co, SyncedAll(co, grants, saves), car);
            && (car in co.scope ==> NoWider(after, Some(ScopeOf(co, car))))
            && (car !in co.scope ==> NoWider(after, CarDocuments(co, grants, car)))
            && (car !in co.scope && !HeldAdmin(co, grants, car) ==> after.None?)
    decreases |saves|
  {
    var next := Synced(co, grants, saves[0]);
    SyncCeiling(co, grants, saves[0], car);
    if |saves| == 1 {
      assert SyncedAll(co, grants, saves) == next;
    } else {
      RunCeiling(co, next, saves[1..], car);
      if car !in co.scope && HeldAdmin(co, next, car) { assert CarDocuments(co, next, car).Some?; }
    }
  }

  /**
    Exactly when no recompile can widen an admin grant: the stored list is empty or holds only
    real layers, or it already covers them all. One unknown id in a narrower list is enough to
    be posted alone, be filtered away, and leave the empty list that reads as every layer.
  */
  lemma {:induction false} WideningExactly(co: Company, grants: Grants, car: nat)
    requires car in co.cars && HeldAdmin(co, grants, car)
    ensures (forall accesses ::
               NoWider(CarDocuments(co, Synced(co, grants, accesses), car), CarDocuments(co, grants, car)))
       <==> var held := Members(grants[car].docs); held == {} || held <= VALID_PACKAGES || VALID_PACKAGES <= held
  {
    var held := Members(grants[car].docs);
    if held == {} || held <= VALID_PACKAGES || VALID_PACKAGES <= held {
      forall accesses
        ensures NoWider(CarDocuments(co, Synced(co, grants, accesses), car), CarDocuments(co, grants, car))
      {
        SyncedAt(co, grants, accesses, car);
        if car in Synced(co, grants, accesses) {
          var a := FirstGrantRow(co, grants, accesses, car);
          RowCeiling(co, grants, a);
        }
      }
    } else {
      var odd :| odd in held && odd !in VALID_PACKAGES;
      var accesses := [Request(car, [odd], false)];
      SyncedAt(co, grants, accesses, car);
      assert accesses[0].docs == [odd] && Members([odd]) == {odd};
      assert Keep([odd], held) == [odd];
      assert Members(Keep([odd], VALID_PACKAGES)) == {};
      assert CarDocuments(co, Synced(co, grants, accesses), car) == Some(VALID_PACKAGES);
      var lacking :| lacking in VALID_PACKAGES && lacking !in held;
    }
  }

  // ---------------------------------------------------------------- round trip

  /** A listing of a person's grants as permission rows, as sync_user_to_node writes them, in any order. */
  ghost predicate Lists(rows: seq<Request>, grants: Grants) {
    && (forall r :: r in rows ==> r.car in grants && r.docs == grants[r.car].docs)
    && (forall car :: car in grants ==> exists r :: r in rows && r.car == car)
  }

  /** Grants that a compile leaves as they are. */
  ghost predicate CompiledGrant(co: Company, car: nat, g: Grant) {
    && car in co.cars
    && (if g.adminGranted then car !in co.scope && Members(g.docs) <= VALID_PACKAGES
        else car in co.scope && Members(g.docs) <= ScopeOf(co, car))
  }

  ghost predicate Compiled(co: Company, grants: Grants) {
    forall car :: car in grants ==> CompiledGrant(co, car, grants[car])
  }

  /** Everything sync_node_to_user stores is in that form. */
  lemma {:induction false} SyncedCompiled(co: Company, grants: Grants, accesses: seq<Request>)
    ensures Compiled(co, Synced(co, grants, accesses))
  {
    forall car | car in Synced(co, grants, accesses)
      ensures CompiledGrant(co, car, Synced(co, grants, accesses)[car])
    {
      SyncedAt(co, grants, accesses, car);
      var a := FirstGrantRow(co, grants, accesses, car);
    }
  }

  lemma {:induction false} ListedGrant(co: Company, grants: Grants, rows: seq<Request>, car: nat)
    requires car in grants
    requires forall r :: r in rows ==> r.car in grants && r.docs == grants[r.car].docs
    ensures (CompiledGrant(co, car, grants[car]) && exists r :: r in rows && r.car == car) ==>
              FirstGrant(co, grants, rows, car) == Some(grants[car])
    ensures !CompiledGrant(co, car, grants[car]) ==> FirstGrant(co, grants, rows, car) != Some(grants[car])
    ensures (forall r :: r in rows ==> r.car != car) ==> FirstGrant(co, grants, rows, car).None?
  {
    if rows != [] {
      assert forall r :: r in rows[1..] ==> r in rows;
      assert rows[0] in rows;
      assert forall r :: r in rows ==> r == rows[0] || r in rows[1..];
      ListedGrant(co, grants, rows[1..], car);
    }
  }

  lemma {:induction false} NotListed(co: Company, grants: Grants, rows: seq<Request>, car: nat)
    requires car !in grants && forall r :: r in rows ==> r.car in grants
    ensures FirstGrant(co, grants, rows, car).None?
  {
    if FirstGrant(co, grants, rows, car).Some? {
      var a := FirstGrantRow(co, grants, rows, car);
    }
  }

  /**
    Mirroring a person's grants onto the seat and compiling the seat again gives the same
    grants exactly when they were in compiled form, whatever order the rows are listed in.
  */
  lemma {:induction false} RoundTrip(co: Company, grants: Grants, rows: seq<Request>)
    requires Lists(rows, grants)
    ensures Synced(co, grants, rows) == grants <==> Compiled(co, grants)
  {
    hide Synced, CompiledGrant, FirstGrant;
    forall car
      ensures car !in grants ==> car !in Synced(co, grants, rows)
      ensures car in grants ==> (CompiledGrant(co, car, grants[car]) <==>
                                   car in Synced(co, grants, rows) && Synced(co, grants, rows)[car] == grants[car])
    {
      SyncedAt(co, grants, rows, car);
      if car in grants { ListedGrant(co, grants, rows, car); } else { NotListed(co, grants, rows, car); }
    }
  }

  // ------------------------------------------------------- the permission editor

  /** What the editor lets through: company layers, and the admin's own layers for the occupant's other cars. */
  function Editable(co: Company, occupant: Grants, car: nat): Option<set<string>> {
    if car in co.scope then Some(ScopeOf(co, car))
    else if car in occupant && occupant[car].adminGranted then Some(Members(occupant[car].docs))
    else None
  }

  function CleanRow(co: Company, occupant: Grants, r: Request): seq<Request> {
    match Editable(co, occupant, r.car)
    case Some(allowed) => [Request(r.car, Keep(r.docs, allowed), false)]
    case None => []
  }

  function CleanRows(co: Company, occupant: Grants, posted: seq<Request>): seq<Request> {
    if posted == [] then [] else CleanRow(co, occupant, posted[0]) + CleanRows(co, occupant, posted[1..])
  }

  /** The row of a posted list that speaks for a car: its first. */
  function FirstPosted(posted: seq<Request>, car: nat): Option<Request> {
    if posted == [] then None
    else if posted[0].car == car then Some(posted[0])
    else FirstPosted(posted[1..], car)
  }

  /** Cleaning and compiling a posted list leaves a car with what its first row is worth. */
  lemma {:induction false} FirstPostedDecides(co: Company, grants: Grants, posted: seq<Request>, car: nat)
    requires car in co.cars && (car in co.scope || HeldAdmin(co, grants, car))
    ensures Editable(co, grants, car).Some?
    ensures FirstGrant(co, grants, CleanRows(co, grants, posted), car)
         == match FirstPosted(posted, car)
            case None => None
            case Some(r) => RowGrant(co, grants, Request(car, Keep(r.docs, Editable(co, grants, car).value), false))
  {
    assert Editable(co, grants, car).Some?;
    if posted != [] {
      var first, rest := CleanRow(co, grants, posted[0]), CleanRows(co, grants, posted[1..]);
      FirstPostedDecides(co, grants, posted[1..], car);
      hide RowGrant, Keep;
      if first == [] {
        assert CleanRows(co, grants, posted) == rest;
      } else {
        assert first == [first[0]] && (first + rest)[1..] == rest;
      }
    }
  }

  /**
    What a posted list gives for a purchased car: the purchased layers it names, or all of them
    when it names none. So the person gets no layer outside the list exactly when it names a
    purchased one (or nothing real was bought): a list of other layers is cleaned to the empty
    list, which reads as all.
  */
  lemma {:induction false} PostedListHonoured(co: Company, grants: Grants, posted: seq<Request>, car: nat)
    requires car in co.cars && car in co.scope
    ensures var after := CarDocuments(co, Synced(co, grants, CleanRows(co, grants, posted)), car);
            match FirstPosted(posted, car)
            case None => after.None?
            case Some(r) =>
              var named := Members(r.docs) * ScopeOf(co, car);
              && after == Some((if named == {} then ScopeOf(co, car) else named) * VALID_PACKAGES)
              && (after.value <= Members(r.docs) <==> named != {} || ScopeOf(co, car) * VALID_PACKAGES == {})
  {
    SyncedAt(co, grants, CleanRows(co, grants, posted), car);
    FirstPostedDecides(co, grants, posted, car);
    hide FirstGrant, RowGrant, Synced, CleanRows, Keep, Members, Effective;
    match FirstPosted(posted, car) {
      case None =>
      case Some(r) =>
        PurchasedEffective(r.docs, ScopeOf(co, car));
    }
  }

  /** Layers named within a purchase, as they are finally read; no name means all of it. */
  lemma {:induction false} PurchasedEffective(docs: Docs, scope: set<string>)
    ensures var named := Members(docs) * scope;
            && Effective(Keep(docs, scope), Some(scope)) == (if named == {} then scope else named) * VALID_PACKAGES
            && (Effective(Keep(docs, scope), Some(scope)) <= Members(docs) <==>
                  named != {} || scope * VALID_PACKAGES == {})
  {
    var named := Members(docs) * scope;
    assert Members(Keep(docs, scope)) == named;
    hide Members, Keep;
    if named == {} {
      assert scope * VALID_PACKAGES <= Members(docs) ==> scope * VALID_PACKAGES <= named;
    }
  }

  /**
    The same for a car the platform admin granted beyond the purchase, whatever layers are
    stored: the list bounds the result exactly when it shares a real layer with the grant, or
    names every real layer there is.
  */
  lemma {:induction false} AdminListHonoured(co: Company, grants: Grants, posted: seq<Request>, car: nat)
    requires car in co.cars && HeldAdmin(co, grants, car)
    ensures var after := CarDocuments(co, Synced(co, grants, CleanRows(co, grants, posted)), car);
            match FirstPosted(posted, car)
            case None => after.None?
            case Some(r) =>
              var held := Members(grants[car].docs);
              var shared := Members(r.docs) * held;
              var kept := (if shared == {} then held else shared) * VALID_PACKAGES;
              && after == Some(if kept == {} then VALID_PACKAGES else kept)
              && (after.value <= Members(r.docs) <==>
                    shared * VALID_PACKAGES != {} || VALID_PACKAGES <= Members(r.docs))
  {
    SyncedAt(co, grants, CleanRows(co, grants, posted), car);
    FirstPostedDecides(co, grants, posted, car);
    match FirstPosted(posted, car) {
      case None =>
      case Some(r) =>
        var held := Members(grants[car].docs);
        var stored := Keep(if Members(r.docs) * held == {} then Sorted(held) else Keep(r.docs, held), VALID_PACKAGES);
        assert Members(stored)
            == (if Members(r.docs) * held == {} then held else Members(r.docs) * held) * VALID_PACKAGES;
    }
  }

  /** A partial grant is restored whole by a list that misses it: a car held for "manual" only, and "parts" posted. */
  lemma {:induction false} PartialGrantRestored()
    ensures var co, grants := Company({7}, map[]), map[7 := Grant(["manual"], true)];
            CarDocuments(co, Synced(co, grants, CleanRows(co, grants, [Request(7, ["parts"], false)])), 7)
              == Some({"manual"})
  {
    var co, grants := Company({7}, map[]), map[7 := Grant(["manual"], true)];
    AdminListHonoured(co, grants, [Request(7, ["parts"], false)], 7);
    hide Synced, CarDocuments, CleanRows, Keep;
    assert FirstPosted([Request(7, ["parts"], false)], 7) == Some(Request(7, ["parts"], false));
    assert Members(["manual"]) == {"manual"} && Members(["parts"]) == {"parts"};
    assert "manual" != "parts" && {"parts"} * {"manual"} == {};
    assert {"manual"} * VALID_PACKAGES == {"manual"};
  }

  // --------------------------------------------------------------- delegation

  /** manager_grantable_cars */
  function Grantable(co: Company, manager: Grants, car: nat): Option<set<string>> {
    if car in co.scope then Some(ScopeOf(co, car))
    else if car in manager && manager[car].adminGranted then Some(Effective(manager[car].docs, None))
    else None
  }

  function DelegatedRow(co: Company, manager: Grants, r: Request): Option<Grant> {
    match Grantable(co, manager, r.car)
    case None => None
    case Some(allowed) =>
      if r.docs != [] then
        if Keep(r.docs, allowed) == [] then None else Some(Grant(Keep(r.docs, allowed), r.car !in co.scope))
      else Some(Grant(Sorted(allowed), r.car !in co.scope))
  }

  function FirstDelegated(co: Company, manager: Grants, rows: seq<Request>, car: nat): Option<Grant> {
    if rows == [] then None
    else if rows[0].car == car && DelegatedRow(co, manager, rows[0]).Some? then DelegatedRow(co, manager, rows[0])
    else FirstDelegated(co, manager, rows[1..], car)
  }

  lemma {:induction false} FirstDelegatedRow(co: Company, manager: Grants, rows: seq<Request>, car: nat)
    returns (a: Request)
    requires FirstDelegated(co, manager, rows, car).Some?
    ensures a in rows && a.car == car && DelegatedRow(co, manager, a) == FirstDelegated(co, manager, rows, car)
  {
    if rows[0].car == car && DelegatedRow(co, manager, rows[0]).Some? {
      a := rows[0];
    } else {
      a := FirstDelegatedRow(co, manager, rows[1..], car);
    }
  }

  function RowCars(rows: seq<Request>): set<nat> {
    set r | r in rows :: r.car
  }

  /** apply_managed_access: only the cars within the manager's reach are replaced. */
  function Delegated(co: Company, manager: Grants, employee: Grants, rows: seq<Request>): Grants {
    map car | car in employee.Keys + RowCars(rows)
              && (if Grantable(co, manager, car).Some?
                  then FirstDelegated(co, manager, rows, car).Some? else car in employee)
      :: if Grantable(co, manager, car).Some? then FirstDelegated(co, manager, rows, car).value else employee[car]
  }

  /**
    Give only what you have; leave alone what is not yours. The one exception is a manager whose own
    list has no real layer.
  */
  lemma {:induction false} DelegationCeiling(co: Company, manager: Grants, employee: Grants, car: nat)
    ensures match Grantable(co, manager, car)
            case None =>
              forall rows ::
                CarDocuments(co, Delegated(co, manager, employee, rows), car) == CarDocuments(co, employee, car)
            case Some(allowed) =>
              (forall rows :: NoWider(CarDocuments(co, Delegated(co, manager, employee, rows), car), Some(allowed)))
              <==> allowed != {}
  {
    match Grantable(co, manager, car) {
      case None =>
        forall rows
          ensures CarDocuments(co, Delegated(co, manager, employee, rows), car) == CarDocuments(co, employee, car)
        {
          assert car in employee ==> car in Delegated(co, manager, employee, rows);
        }
      case Some(allowed) =>
        if allowed != {} {
          forall rows ensures NoWider(CarDocuments(co, Delegated(co, manager, employee, rows), car), Some(allowed)) {
            if car in Delegated(co, manager, employee, rows) {
              var a := FirstDelegatedRow(co, manager, rows, car);
            }
          }
        } else {
          var rows := [Request(car, [], false)];
          assert rows[0] in rows && car in RowCars(rows);
          assert Sorted(allowed) == [];
          assert FirstDelegated(co, manager, rows, car) == Some(Grant([], true));
          assert CarDocuments(co, Delegated(co, manager, employee, rows), car) == Some(VALID_PACKAGES);
          assert "manual" in VALID_PACKAGES;
        }
    }
  }
}
