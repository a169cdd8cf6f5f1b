/**
  The org-graph canvas: the seats of one company, edited by the endpoints of
  orggraph_api.py and the server-side transfers of orggraph.py.
*/
module OrgGraph {
  import opened Wrappers
  import opened Links

  datatype Seat = Seat(parent: Option<nat>, isRoot: bool, occupant: Option<nat>)

  type Seats = map<nat, Seat>

  /**
    The seats of a company and its `accounts`, of which the `active` ones may be seated by a
    PATCH; ids are handed out in increasing order and never again.
  */
  datatype Chart = Chart(seats: Seats, nextSeat: nat, accounts: set<nat>, active: set<nat>, nextUser: nat,
      cap: Option<nat>)

  datatype Reply = Done | Unchanged | NotFound | ParentNotFound | WouldLoop | RootFixed | RootHolderFixed
                 | EmployeeNotFound | Occupied | SeatCap | OtpRefused | IntegrityError | NoRoot

  datatype Edited = Edited(chart: Chart, reply: Reply)

  function Parents(seats: Seats): Links {
    map x | x in seats :: seats[x].parent
  }

  // ---------------------------------------------------------------- invariant

  ghost predicate KnownIds(c: Chart) {
    && (forall x :: x in c.seats ==> x < c.nextSeat)
    && (forall x, p :: x in c.seats && c.seats[x].parent == Some(p) ==> p in c.seats)
    && (forall x :: x in c.seats && c.seats[x].occupant.Some? ==> c.seats[x].occupant.value in c.accounts)
    && c.active <= c.accounts && (forall u :: u in c.accounts ==> u < c.nextUser)
  }

  ghost predicate OneRoot(seats: Seats) {
    && (forall x, y :: x in seats && y in seats && seats[x].isRoot && seats[y].isRoot ==> x == y)
    && (forall x :: x in seats && seats[x].isRoot ==> seats[x].parent.None?)
  }

  ghost predicate OneSeatEach(seats: Seats) {
    forall x, y :: x in seats && y in seats && seats[x].occupant.Some? && seats[x].occupant == seats[y].occupant ==>
      x == y
  }

  /** A forest of seats with at most one root, which is on top, and at most one seat for each person. */
  ghost predicate Forest(c: Chart) {
    KnownIds(c) && OneRoot(c.seats) && OneSeatEach(c.seats) && Acyclic(Parents(c.seats))
  }

  // --------------------------------------------------------------- the edits

  predicate IsRootSeat(seats: Seats, x: nat) {
    x in seats && seats[x].isRoot
  }

  ghost function RootSeat(seats: Seats): Option<nat> {
    if r :| IsRootSeat(seats, r) then Some(r) else None
  }

  function RootHolder(seats: Seats, root: Option<nat>): Option<nat> {
    if root.Some? && root.value in seats then seats[root.value].occupant else None
  }

  predicate Seated(seats: Seats, u: nat) {
    exists x :: x in seats && seats[x].occupant == Some(u)
  }

  /** Every seat of `u` other than `keep` is emptied. */
  function Vacated(seats: Seats, u: nat, keep: nat): Seats {
    map x | x in seats :: if x != keep && seats[x].occupant == Some(u) then seats[x].(occupant := None) else seats[x]
  }

  function Placed(c: Chart, seat: Seat): Chart {
    c.(seats := c.seats[c.nextSeat := seat], nextSeat := c.nextSeat + 1)
  }

  function OrdinaryIds(seats: Seats): set<nat> {
    set x | x in seats && !seats[x].isRoot
  }

  function OrdinarySeats(seats: Seats): nat {
    |OrdinaryIds(seats)|
  }

  function Create(c: Chart, parent: Option<nat>): Edited {
    if c.cap.Some? && OrdinarySeats(c.seats) + 1 >= c.cap.value then Edited(c, SeatCap)
    else if parent.Some? && parent.value !in c.seats then Edited(c, ParentNotFound)
    else Edited(Placed(c, Seat(parent, false, None)), Done)
  }

  /** Children go up to the seat's own parent, or to the root when it has none. */
  ghost function Delete(c: Chart, node: nat): Edited {
    if node !in c.seats then Edited(c, NotFound)
    else if c.seats[node].isRoot then Edited(c, RootFixed)
    else
      var fallback := if c.seats[node].parent.Some? then c.seats[node].parent else RootSeat(c.seats);
      var seats := map x | x in c.seats && x != node ::
        if c.seats[x].parent == Some(node) then c.seats[x].(parent := fallback) else c.seats[x];
      Edited(c.(seats := seats), Done)
  }

  /** The fields a PATCH carries; an outer None is an absent field, an inner None clears it. */
  datatype Patch = Patch(parent: Option<Option<nat>>, occupant: Option<Option<nat>>, otpRefused: bool)

  /**
    The parent check, the occupant checks, the one-seat rule and only then the row itself:
    a request refused for its OTP flag has already vacated the person's other seat.
  */
  ghost function PatchSeat(c: Chart, node: nat, p: Patch): Edited {
    if node !in c.seats then Edited(c, NotFound)
    else
      var seat := c.seats[node];
      var moves := p.parent.Some? && !seat.isRoot;
      if moves && p.parent.value.Some? && p.parent.value.value !in c.seats then Edited(c, ParentNotFound)
      else if moves && p.parent.value.Some? && AtOrAbove(Parents(c.seats), node, p.parent.value.value)
      then Edited(c, WouldLoop)
      else if p.occupant.Some? && seat.isRoot && seat.occupant.Some? && p.occupant.value != seat.occupant
      then Edited(c, RootFixed)
      else if p.occupant.Some? && !seat.isRoot && p.occupant.value.Some?
              && p.occupant.value == RootHolder(c.seats, RootSeat(c.seats)) then Edited(c, RootHolderFixed)
      else if p.occupant.Some? && p.occupant.value.Some? && p.occupant.value.value !in c.active
      then Edited(c, EmployeeNotFound)
      else
        var others := if p.occupant.Some? && p.occupant.value.Some?
                      then Vacated(c.seats, p.occupant.value.value, node) else c.seats;
        var seat' := seat.(parent := if moves then p.parent.value else seat.parent,
                           occupant := if p.occupant.Some? then p.occupant.value else seat.occupant);
        if p.otpRefused && seat'.occupant.Some? then Edited(c.(seats := others), OtpRefused)
        else Edited(c.(seats := others[node := seat']), Done)
  }

  /**
    The checks a PATCH has to pass before it changes anything: the seat exists, a new parent is
    known and makes no loop, and a new occupant is an active employee whom neither the rule for
    the root seat nor the one for its holder bars.
  */
  ghost predicate PassesChecks(c: Chart, node: nat, p: Patch) {
    && node in c.seats
    && (p.parent.Some? && !c.seats[node].isRoot && p.parent.value.Some? ==>
          p.parent.value.value in c.seats && !AtOrAbove(Parents(c.seats), node, p.parent.value.value))
    && (p.occupant.Some? ==>
          && (c.seats[node].isRoot && c.seats[node].occupant.Some? ==> p.occupant.value == c.seats[node].occupant)
          && (p.occupant.value.Some? ==>
                && p.occupant.value.value in c.active
                && (!c.seats[node].isRoot ==> p.occupant.value != RootHolder(c.seats, RootSeat(c.seats)))))
  }

  /** A new active account. */
  function Grown(c: Chart): Chart {
    c.(accounts := c.accounts + {c.nextUser}, active := c.active + {c.nextUser}, nextUser := c.nextUser + 1)
  }

  /** A new account, created straight into an empty seat. */
  function CreateUser(c: Chart, node: nat): Edited {
    if node !in c.seats then Edited(c, NotFound)
    else if c.seats[node].occupant.Some? then Edited(c, Occupied)
    else if c.cap.Some? && c.cap.value > 0 && |c.active| >= c.cap.value then Edited(c, SeatCap)
    else Edited(Grown(c).(seats := c.seats[node := c.seats[node].(occupant := Some(c.nextUser))]), Done)
  }

  ghost function ReassignRoot(c: Chart, user: nat): Edited {
    if user !in c.accounts then Edited(c, NotFound)
    else
      match RootSeat(c.seats)
      case None =>
        var c' := c.(seats := Vacated(c.seats, user, c.nextSeat));
        Edited(Placed(c', Seat(None, true, Some(user))), Done)
      case Some(r) =>
        var seats := Vacated(c.seats, user, r);
        Edited(c.(seats := if r in seats then seats[r := seats[r].(occupant := Some(user))] else seats), Done)
  }

  /**
    The old root becomes an ordinary seat under a new one. The prior seat of `user` is not
    vacated, so a user who is already seated trips the unique constraint and all is rolled back.
  */
  ghost function RootOnTop(c: Chart, user: nat): Edited {
    match RootSeat(c.seats)
    case None => ReassignRoot(c, user)
    case Some(r) =>
      if user !in c.accounts then Edited(c, NotFound)
      else if Seated(c.seats, user) then Edited(c, IntegrityError)
      else
        var demoted := if r in c.seats then c.seats[r := c.seats[r].(isRoot := false, parent := Some(c.nextSeat))]
                       else c.seats;
        Edited(Placed(c.(seats := demoted), Seat(None, true, Some(user))), Done)
  }

  ghost function SeatNewUser(c: Chart, user: nat): Edited {
    var root := RootSeat(c.seats);
    if root.None? || Seated(c.seats, user) || user !in c.accounts then Edited(c, Unchanged)
    else Edited(Placed(c, Seat(root, false, Some(user))), Done)
  }

  /** An account created by the platform admin, given a seat under the occupied root. */
  ghost function Hire(c: Chart): Edited {
    if RootHolder(c.seats, RootSeat(c.seats)).None? then Edited(c, NoRoot)
    else if c.cap.Some? && c.cap.value > 0 && |c.active| >= c.cap.value then Edited(c, SeatCap)
    else
      Edited(SeatNewUser(Grown(c), c.nextUser).chart, Done)
  }

  function SetActive(c: Chart, user: nat, on: bool): Edited {
    if user !in c.accounts then Edited(c, NotFound)
    else Edited(c.(active := if on then c.active + {user} else c.active - {user}), Done)
  }

  /** A deleted account: the seat it held is left empty. */
  function RemoveAccount(c: Chart, user: nat): Edited {
    if user !in c.accounts then Edited(c, NotFound)
    else
      Edited(c.(seats := Vacated(c.seats, user, c.nextSeat),
                accounts := c.accounts - {user}, active := c.active - {user}), Done)
  }

  function SeatAll(c: Chart, root: nat, users: seq<nat>): Chart
    decreases |users|
  {
    if users == [] then c else SeatAll(Placed(c, Seat(Some(root), false, Some(users[0]))), root, users[1..])
  }

  /** The first graph of a company: one root and a flat row of seats, for distinct users. */
  function Seed(c: Chart, rootUser: Option<nat>, others: seq<nat>): Edited {
    if c.seats != map[] then Edited(c, Unchanged)
    else Edited(SeatAll(Placed(c, Seat(None, true, rootUser)), c.nextSeat, others), Done)
  }

  // ------------------------------------------------------------------- runs

  datatype Edit =
    | Creating(parent: Option<nat>)
    | Deleting(node: nat)
    | Patching(node: nat, patch: Patch)
    | CreatingUser(node: nat)
    | ReassigningRoot(user: nat)
    | RootingOnTop(user: nat)
    | SeatingNewUser(user: nat)
    | Seeding(rootUser: Option<nat>, others: seq<nat>)
    | Hiring
    | Activating(user: nat, on: bool)
    | Removing(user: nat)
    | Capping(cap: Option<nat>)

  /** The seeding query returns each active user once, the root user left out. */
  ghost predicate ProperEdit(c: Chart, e: Edit) {
    e.Seeding? ==>
      && (forall u :: u in e.others ==> u in c.accounts && e.rootUser != Some(u))
      && (forall i, j :: 0 <= i < j < |e.others| ==> e.others[i] != e.others[j])
      && (e.rootUser.Some? ==> e.rootUser.value in c.accounts)
  }

  ghost function Apply(c: Chart, e: Edit): Edited {
    match e
    case Creating(parent) => Create(c, parent)
    case Deleting(node) => Delete(c, node)
    case Patching(node, patch) => PatchSeat(c, node, patch)
    case CreatingUser(node) => CreateUser(c, node)
    case ReassigningRoot(user) => ReassignRoot(c, user)
    case RootingOnTop(user) => RootOnTop(c, user)
    case SeatingNewUser(user) => SeatNewUser(c, user)
    case Seeding(rootUser, others) => if ProperEdit(c, e) then Seed(c, rootUser, others) else Edited(c, Unchanged)
    case Hiring => Hire(c)
    case Activating(user, on) => SetActive(c, user, on)
    case Removing(user) => RemoveAccount(c, user)
    case Capping(cap) => Edited(c.(cap := cap), Done)
  }

  ghost function Replay(c: Chart, edits: seq<Edit>): Chart
    decreases |edits|
  {
    if edits == [] then c else Replay(Apply(c, edits[0]).chart, edits[1..])
  }

  // ------------------------------------------------------------------ proofs

  lemma {:induction false} SameParents(a: Seats, b: Seats)
    requires a.Keys == b.Keys && forall x :: x in a ==> a[x].parent == b[x].parent
    ensures Parents(a) == Parents(b)
  {}

  /** Seats taken away or changed, none made a root or hung above one: still one root on top. */
  lemma {:induction false} RootCarries(a: Seats, b: Seats)
    requires OneRoot(a) && b.Keys <= a.Keys
    requires forall x :: x in b ==> b[x].isRoot == a[x].isRoot && (b[x].isRoot ==> b[x].parent == a[x].parent)
    ensures OneRoot(b)
  {}

  /** Everything the seats mention is known. */
  lemma {:induction false} IdsCarry(c: Chart, b: Seats)
    requires KnownIds(c) && b.Keys <= c.seats.Keys
    requires forall x, p :: x in b && b[x].parent == Some(p) ==> p in b
    requires forall x :: x in b && b[x].occupant.Some? ==> b[x].occupant.value in c.accounts
    ensures KnownIds(c.(seats := b))
  {}

  lemma {:induction false} PlaceKeepsForest(c: Chart, seat: Seat)
    requires Forest(c)
    requires seat.parent.Some? ==> seat.parent.value in c.seats
    requires seat.occupant.Some? ==> seat.occupant.value in c.accounts && !Seated(c.seats, seat.occupant.value)
    requires seat.isRoot ==> seat.parent.None? && forall x :: x in c.seats ==> !c.seats[x].isRoot
    ensures Forest(Placed(c, seat))
  {
    PlaceKeepsAcyclic(c, seat);
    assert KnownIds(Placed(c, seat));
    hide KnownIds, OneRoot, OneSeatEach, Acyclic;
  }

  lemma {:induction false} PlaceKeepsAcyclic(c: Chart, seat: Seat)
    requires KnownIds(c) && Acyclic(Parents(c.seats)) && (seat.parent.Some? ==> seat.parent.value in c.seats)
    ensures Acyclic(Parents(Placed(c, seat).seats))
  {
    var seats := c.seats[c.nextSeat := seat];
    hide Acyclic;
    assert Parents(seats) == Parents(c.seats)[c.nextSeat := seat.parent];
    forall x | x in Parents(c.seats) ensures Parents(c.seats)[x] != Some(c.nextSeat) {
      assert Parents(c.seats)[x] == c.seats[x].parent;
    }
    AddKeepsAcyclic(Parents(c.seats), c.nextSeat, seat.parent);
  }

  lemma {:induction false} VacatedOnly(seats: Seats, user: nat, keep: nat)
    ensures var after := Vacated(seats, user, keep);
            && after.Keys == seats.Keys
            && (forall x :: x in seats ==> after[x].parent == seats[x].parent && after[x].isRoot == seats[x].isRoot)
            && (forall x :: x in seats && after[x].occupant.Some? ==> after[x].occupant == seats[x].occupant)
            && forall x :: x in seats && after[x].occupant == Some(user) ==> x == keep
  {}

  lemma {:induction false} VacateKeepsForest(c: Chart, user: nat, keep: nat)
    requires Forest(c)
    ensures Forest(c.(seats := Vacated(c.seats, user, keep)))
    ensures forall x :: x in c.seats && Vacated(c.seats, user, keep)[x].occupant == Some(user) ==> x == keep
  {
    hide Vacated, Acyclic;
    VacatedOnly(c.seats, user, keep);
    var seats := Vacated(c.seats, user, keep);
    SameParents(c.seats, seats);
    RootCarries(c.seats, seats);
    IdsCarry(c, seats);
    hide KnownIds, OneRoot;
  }

  /** Seating `user` where nobody else holds a seat of theirs. */
  lemma {:induction false} OccupyKeepsForest(c: Chart, node: nat, user: nat)
    requires Forest(c) && node in c.seats && user in c.accounts
    requires forall x :: x in c.seats && c.seats[x].occupant == Some(user) ==> x == node
    ensures Forest(c.(seats := c.seats[node := c.seats[node].(occupant := Some(user))]))
  {
    SameParents(c.seats, c.seats[node := c.seats[node].(occupant := Some(user))]);
  }

  lemma {:induction false} ClearKeepsForest(c: Chart, node: nat)
    requires Forest(c) && node in c.seats
    ensures Forest(c.(seats := c.seats[node := c.seats[node].(occupant := None)]))
  {
    var seats := c.seats[node := c.seats[node].(occupant := None)];
    SameParents(c.seats, seats);
    RootCarries(c.seats, seats);
    IdsCarry(c, seats);
    hide KnownIds, OneRoot, OneSeatEach, Acyclic;
  }

  lemma {:induction false} MoveKeepsForest(c: Chart, node: nat, parent: Option<nat>)
    requires Forest(c) && node in c.seats && !c.seats[node].isRoot
    requires parent.Some? ==> parent.value in c.seats && !AtOrAbove(Parents(c.seats), node, parent.value)
    ensures Forest(c.(seats := c.seats[node := c.seats[node].(parent := parent)]))
  {
    var seats := c.seats[node := c.seats[node].(parent := parent)];
    RootCarries(c.seats, seats);
    IdsCarry(c, seats);
    hide KnownIds, OneRoot, OneSeatEach, Acyclic, AtOrAbove;
    assert Parents(seats) == Parents(c.seats)[node := parent];
    if parent.Some? {
      MoveKeepsAcyclic(Parents(c.seats), node, parent.value);
    } else {
      CutKeepsAcyclic(Parents(c.seats), node);
    }
  }

  lemma {:induction false} CutKeepsAcyclic(links: Links, node: nat)
    requires Acyclic(links) && node in links
    ensures Acyclic(links[node := None])
  {
    hide Acyclic;
    var rank := AcyclicRanked(links);
    RankedAcyclic(links[node := None], rank);
  }

  lemma {:induction false} DeleteKeepsForest(c: Chart, node: nat)
    requires Forest(c)
    ensures Forest(Delete(c, node).chart)
  {
    if node in c.seats && !c.seats[node].isRoot {
      FallbackKnown(c, node);
      DeleteKeepsIds(c, node);
      DeleteKeepsOne(c, node);
      DeleteSplices(c, node);
      hide KnownIds, OneRoot, OneSeatEach, Acyclic, Spliced, RootSeat;
      var fallback := if c.seats[node].parent.Some? then c.seats[node].parent else RootSeat(c.seats);
      SpliceKeepsAcyclic(Parents(c.seats), node, fallback);
    }
  }

  lemma {:induction false} DeleteSplices(c: Chart, node: nat)
    requires node in c.seats && !c.seats[node].isRoot
    ensures Parents(Delete(c, node).chart.seats)
         == Spliced(Parents(c.seats), node,
                    if c.seats[node].parent.Some? then c.seats[node].parent else RootSeat(c.seats))
  {
    hide RootSeat;
  }

  lemma {:induction false} DeleteKeepsIds(c: Chart, node: nat)
    requires Forest(c) && node in c.seats && !c.seats[node].isRoot
    ensures KnownIds(Delete(c, node).chart)
  {
    FallbackKnown(c, node);
    hide RootSeat, OneRoot, OneSeatEach, Acyclic;
    IdsCarry(c, Delete(c, node).chart.seats);
  }

  lemma {:induction false} DeleteKeepsOne(c: Chart, node: nat)
    requires Forest(c) && node in c.seats && !c.seats[node].isRoot
    ensures OneRoot(Delete(c, node).chart.seats) && OneSeatEach(Delete(c, node).chart.seats)
  {
    hide RootSeat, Acyclic, KnownIds;
    RootCarries(c.seats, Delete(c, node).chart.seats);
  }

  /** Where the children of a deleted seat go: a seat that stays, the root if not the parent. */
  lemma {:induction false} FallbackKnown(c: Chart, node: nat)
    requires Forest(c) && node in c.seats && !c.seats[node].isRoot
    ensures var fallback := if c.seats[node].parent.Some? then c.seats[node].parent else RootSeat(c.seats);
            && (fallback.Some? ==> fallback.value in c.seats && fallback.value != node)
            && (fallback == c.seats[node].parent || (fallback.Some? && c.seats[fallback.value].parent.None?))
  {
    if c.seats[node].parent == Some(node) { AboveStep(Parents(c.seats), node, node); }
  }

  /** The occupant part of a PATCH, on a chart where the person holds no other seat. */
  lemma {:induction false} FillKeepsForest(c: Chart, node: nat, occupant: Option<nat>)
    requires Forest(c) && node in c.seats
    requires occupant.Some? ==> occupant.value in c.active
    requires occupant.Some? ==> forall x :: x in c.seats && c.seats[x].occupant == occupant ==> x == node
    ensures Forest(c.(seats := c.seats[node := c.seats[node].(occupant := occupant)]))
  {
    if occupant.Some? { OccupyKeepsForest(c, node, occupant.value); } else { ClearKeepsForest(c, node); }
  }

  lemma {:induction false} PatchKeepsForest(c: Chart, node: nat, p: Patch)
    requires Forest(c)
    ensures Forest(PatchSeat(c, node, p).chart)
  {
    hide Forest, Parents, AtOrAbove, RootSeat;
    var r := PatchSeat(c, node, p);
    if r.reply == Done || r.reply == OtpRefused {
      var c1 := c;
      if p.occupant.Some? && p.occupant.value.Some? {
        VacateKeepsForest(c, p.occupant.value.value, node);
        SameParents(c.seats, Vacated(c.seats, p.occupant.value.value, node));
        c1 := c.(seats := Vacated(c.seats, p.occupant.value.value, node));
      }
      if r.reply == Done {
        var c2 := c1;
        if p.parent.Some? && !c.seats[node].isRoot {
          MoveKeepsForest(c1, node, p.parent.value);
          c2 := c1.(seats := c1.seats[node := c1.seats[node].(parent := p.parent.value)]);
        }
        var occupant := if p.occupant.Some? then p.occupant.value else c2.seats[node].occupant;
        if p.occupant.Some? { FillKeepsForest(c2, node, occupant); }
        assert r.chart.seats == c2.seats[node := c2.seats[node].(occupant := occupant)];
        assert c2.seats[node].(occupant := c2.seats[node].occupant) == c2.seats[node];
        assert c2.seats[node := c2.seats[node]] == c2.seats;
      }
    }
  }

  lemma {:induction false} CreateUserKeepsForest(c: Chart, node: nat)
    requires Forest(c)
    ensures Forest(CreateUser(c, node).chart)
  {
    if CreateUser(c, node).reply == Done {
      OccupyKeepsForest(Grown(c), node, c.nextUser);
    }
  }

  lemma {:induction false} ReassignKeepsForest(c: Chart, user: nat)
    requires Forest(c)
    ensures Forest(ReassignRoot(c, user).chart)
  {
    if user in c.accounts {
      match RootSeat(c.seats) {
        case None =>
          VacateKeepsForest(c, user, c.nextSeat);
          assert forall x :: x in c.seats ==> !IsRootSeat(c.seats, x);
          assert forall x :: x in c.seats ==> (c.seats[x].isRoot <==> IsRootSeat(c.seats, x));
          PlaceKeepsForest(c.(seats := Vacated(c.seats, user, c.nextSeat)), Seat(None, true, Some(user)));
        case Some(r) =>
          VacateKeepsForest(c, user, r);
          OccupyKeepsForest(c.(seats := Vacated(c.seats, user, r)), r, user);
      }
    }
  }

  /** A new top above the root, itself the parent of the old one. */
  lemma {:induction false} RaiseKeepsAcyclic(links: Links, root: nat, top: nat)
    requires Acyclic(links) && root in links && links[root].None? && top !in links
    requires forall x :: x in links ==> links[x] != Some(top)
    ensures Acyclic(links[root := Some(top)][top := None])
  {
    var rank := AcyclicRanked(links);
    var rank' := (map x | x in rank :: rank[x] + 1)[top := 0];
    RankedAcyclic(links[root := Some(top)][top := None], rank');
  }

  lemma {:induction false} OnTopKeepsForest(c: Chart, user: nat)
    requires Forest(c)
    ensures Forest(RootOnTop(c, user).chart)
  {
    if RootSeat(c.seats).None? {
      ReassignKeepsForest(c, user);
    } else if RootOnTop(c, user).reply == Done {
      OnTopKeepsAcyclic(c, user);
      hide OneRoot, OneSeatEach, Acyclic, ReassignRoot;
      assert IsRootSeat(c.seats, RootSeat(c.seats).value);
    }
  }

  lemma {:induction false} OnTopKeepsAcyclic(c: Chart, user: nat)
    requires Forest(c) && RootSeat(c.seats).Some? && RootOnTop(c, user).reply == Done
    ensures Acyclic(Parents(RootOnTop(c, user).chart.seats))
  {
    hide Acyclic, ReassignRoot, OneSeatEach;
    var r := RootSeat(c.seats).value;
    var after := RootOnTop(c, user).chart.seats;
    assert IsRootSeat(c.seats, r);
    assert Parents(after) == Parents(c.seats)[r := Some(c.nextSeat)][c.nextSeat := None];
    RaiseKeepsAcyclic(Parents(c.seats), r, c.nextSeat);
  }

  lemma {:induction false} SeatAllKeepsForest(c: Chart, root: nat, users: seq<nat>)
    requires Forest(c) && root in c.seats
    requires forall u :: u in users ==> u in c.accounts && !Seated(c.seats, u)
    requires forall i, j :: 0 <= i < j < |users| ==> users[i] != users[j]
    ensures Forest(SeatAll(c, root, users))
    decreases |users|
  {
    if users != [] {
      var seat := Seat(Some(root), false, Some(users[0]));
      assert users[0] in users;
      PlaceKeepsForest(c, seat);
      var c' := Placed(c, seat);
      forall u | u in users[1..] ensures u in c'.accounts && !Seated(c'.seats, u) {
        var i :| 0 <= i < |users[1..]| && users[1..][i] == u;
        assert users[0] != users[i + 1] && u in users;
      }
      SeatAllKeepsForest(c', root, users[1..]);
    }
  }

  lemma {:induction false} SeatNewKeepsForest(c: Chart, user: nat)
    requires Forest(c)
    ensures Forest(SeatNewUser(c, user).chart)
  {
    if SeatNewUser(c, user).reply == Done { PlaceKeepsForest(c, Seat(RootSeat(c.seats), false, Some(user))); }
  }

  lemma {:induction false} HireKeepsForest(c: Chart)
    requires Forest(c)
    ensures Forest(Hire(c).chart)
  {
    SeatNewKeepsForest(Grown(c), c.nextUser);
    hide Forest, Grown, SeatNewUser, RootSeat;
  }

  /** Whoever is hired gets an account and a seat under the root; nobody else's seat changes. */
  lemma {:induction false} HireSeats(c: Chart)
    requires Forest(c) && Hire(c).reply == Done
    ensures var after := Hire(c).chart;
            && c.nextUser !in c.accounts && after.accounts == c.accounts + {c.nextUser}
            && c.nextSeat !in c.seats
            && after.seats == c.seats[c.nextSeat := Seat(RootSeat(c.seats), false, Some(c.nextUser))]
  {}

  /** A removed account leaves no seat occupied by it, and every other seat as it was. */
  lemma {:induction false} RemoveKeepsForest(c: Chart, user: nat)
    requires Forest(c)
    ensures Forest(RemoveAccount(c, user).chart)
    ensures RemoveAccount(c, user).reply == Done ==> !Seated(RemoveAccount(c, user).chart.seats, user)
    ensures forall x :: x in c.seats && c.seats[x].occupant != Some(user) ==>
                          x in RemoveAccount(c, user).chart.seats && RemoveAccount(c, user).chart.seats[x] == c.seats[x]
  {
    if user in c.accounts {
      VacateKeepsForest(c, user, c.nextSeat);
      var seats := Vacated(c.seats, user, c.nextSeat);
      assert c.nextSeat !in c.seats;
      assert forall x :: x in seats ==> seats[x].occupant != Some(user);
    }
  }

  lemma {:induction false} EditKeepsForest(c: Chart, e: Edit)
    requires Forest(c)
    ensures Forest(Apply(c, e).chart)
  {
    match e {
      case Creating(parent) =>
        if Create(c, parent).reply == Done { PlaceKeepsForest(c, Seat(parent, false, None)); }
      case Deleting(node) => DeleteKeepsForest(c, node);
      case Patching(node, patch) => PatchKeepsForest(c, node, patch);
      case CreatingUser(node) => CreateUserKeepsForest(c, node);
      case ReassigningRoot(user) => ReassignKeepsForest(c, user);
      case RootingOnTop(user) => OnTopKeepsForest(c, user);
      case SeatingNewUser(user) => SeatNewKeepsForest(c, user);
      case Seeding(rootUser, others) =>
        if ProperEdit(c, e) && c.seats == map[] {
          PlaceKeepsForest(c, Seat(None, true, rootUser));
          SeatAllKeepsForest(Placed(c, Seat(None, true, rootUser)), c.nextSeat, others);
        }
      case Hiring => HireKeepsForest(c);
      case Activating(user, on) =>
      case Removing(user) => RemoveKeepsForest(c, user);
      case Capping(cap) =>
    }
  }

  /** Every chart reachable by edits from an empty one is a forest with one root and one seat each. */
  lemma {:induction false} RunKeepsForest(c: Chart, edits: seq<Edit>)
    requires Forest(c)
    ensures Forest(Replay(c, edits))
    decreases |edits|
  {
    if edits != [] {
      EditKeepsForest(c, edits[0]);
      RunKeepsForest(Apply(c, edits[0]).chart, edits[1..]);
    }
  }

  /** No edit takes the root away: the root is not deleted, and a new one on top replaces it. */
  lemma {:induction false} RootStays(c: Chart, e: Edit)
    requires Forest(c) && RootSeat(c.seats).Some?
    ensures RootSeat(Apply(c, e).chart.seats).Some?
  {
    hide Acyclic, AtOrAbove, OneSeatEach;
    var r := RootSeat(c.seats).value;
    var seats := Apply(c, e).chart.seats;
    assert IsRootSeat(c.seats, r);
    assert IsRootSeat(seats, r) || IsRootSeat(seats, c.nextSeat);
  }

  lemma {:induction false} SeatAllHas(c: Chart, root: nat, users: seq<nat>, x: nat)
    requires x in c.seats && x < c.nextSeat
    ensures var seats := SeatAll(c, root, users).seats; x in seats && seats[x] == c.seats[x]
    decreases |users|
  {
    if users != [] { SeatAllHas(Placed(c, Seat(Some(root), false, Some(users[0]))), root, users[1..], x); }
  }

  /** Seeding an empty canvas makes a root. */
  lemma {:induction false} SeedingRoots(c: Chart, rootUser: Option<nat>, others: seq<nat>)
    requires c.seats == map[] && ProperEdit(c, Seeding(rootUser, others))
    ensures RootSeat(Apply(c, Seeding(rootUser, others)).chart.seats).Some?
  {
    SeatAllHas(Placed(c, Seat(None, true, rootUser)), c.nextSeat, others, c.nextSeat);
    assert IsRootSeat(Apply(c, Seeding(rootUser, others)).chart.seats, c.nextSeat);
  }

  /** From the first root on a company has, after any run of edits, exactly one root. */
  lemma {:induction false} RootStaysInRun(c: Chart, edits: seq<Edit>)
    requires Forest(c) && RootSeat(c.seats).Some?
    ensures var seats := Replay(c, edits).seats;
            RootSeat(seats).Some? && forall x: nat :: IsRootSeat(seats, x) <==> RootSeat(seats) == Some(x)
    decreases |edits|
  {
    hide Apply, Forest;
    if edits == [] {
      OnlyRoot(c);
    } else {
      EditKeepsForest(c, edits[0]);
      RootStays(c, edits[0]);
      RootStaysInRun(Apply(c, edits[0]).chart, edits[1..]);
    }
  }

  lemma {:induction false} OnlyRoot(c: Chart)
    requires Forest(c) && RootSeat(c.seats).Some?
    ensures forall x: nat :: IsRootSeat(c.seats, x) <==> RootSeat(c.seats) == Some(x)
  {}
}
