/**
  What an edit of the canvas that answers Done has done, seat by seat and line by line, whatever
  way it is computed.
*/
module OrgEdits {
  import opened Wrappers
  import opened Links
  import opened OrgGraph

  /** Every other seat is where it was with whoever held it, except that `leaving` is gone from it. */
  ghost predicate OthersKept(before: Seats, after: Seats, node: nat, leaving: Option<nat>) {
    forall x :: x in before && x != node ==>
      && x in after && after[x].parent == before[x].parent && after[x].isRoot == before[x].isRoot
      && after[x].occupant == if leaving.Some? && before[x].occupant == leaving then None else before[x].occupant
  }

  ghost predicate HoldsOnly(seats: Seats, u: nat, node: nat) {
    forall x :: x in seats ==> (seats[x].occupant == Some(u) <==> x == node)
  }

  /** Nothing but the seats has changed. */
  ghost predicate SeatsOnly(before: Chart, after: Chart) {
    after == before.(seats := after.seats)
  }

  // ------------------------------------------------------------------- a PATCH

  function Named(p: Patch): Option<nat> {
    if p.occupant.Some? then p.occupant.value else None
  }

  /**
    A PATCH that answers Done: a posted parent is the parent of a seat that is not the root, a
    posted occupant holds this seat and no other, absent fields keep their values, and of the
    other seats only the one the person held before is emptied.
  */
  lemma {:induction false} PatchDone(c: Chart, node: nat, p: Patch)
    requires PatchSeat(c, node, p).reply == Done
    ensures node in c.seats && SeatsOnly(c, PatchSeat(c, node, p).chart)
    ensures var after := PatchSeat(c, node, p).chart.seats;
            && after.Keys == c.seats.Keys && OthersKept(c.seats, after, node, Named(p))
            && after[node].isRoot == c.seats[node].isRoot
            && (p.parent.Some? && !c.seats[node].isRoot ==> after[node].parent == p.parent.value)
            && (p.parent.None? || c.seats[node].isRoot ==> after[node].parent == c.seats[node].parent)
            && (p.occupant.Some? ==> after[node].occupant == p.occupant.value)
            && (p.occupant.None? ==> after[node].occupant == c.seats[node].occupant)
            && (Named(p).Some? ==> HoldsOnly(after, Named(p).value, node))
  {
    hide AtOrAbove, RootSeat;
  }

  /** A seat hung elsewhere: below what it was hung on, and lines that do not pass it are as they were. */
  lemma {:induction false} UpAway(links: Links, n: nat, v: Option<nat>, y: nat, k: nat)
    requires !AtOrAbove(links, n, y)
    ensures Up(links[n := v], y, k) == Up(links, y, k)
  {
    if k > 0 {
      UpAway(links, n, v, y, k - 1);
      assert Up(links, y, k - 1) != Some(n);
    }
  }

  lemma {:induction false} LinesAway(links: Links, n: nat, v: Option<nat>, y: nat)
    requires !AtOrAbove(links, n, y)
    ensures forall a: nat :: AtOrAbove(links[n := v], a, y) <==> AtOrAbove(links, a, y)
  {
    forall a: nat ensures AtOrAbove(links[n := v], a, y) <==> AtOrAbove(links, a, y) {
      if AtOrAbove(links, a, y) {
        var k: nat :| Up(links, y, k) == Some(a);
        UpAway(links, n, v, y, k);
      }
      if AtOrAbove(links[n := v], a, y) {
        var k: nat :| Up(links[n := v], y, k) == Some(a);
        UpAway(links, n, v, y, k);
      }
    }
  }

  /**
    Where a PATCH that re-parents a seat leaves the lines: above the seat stands exactly who
    stood at or above the new parent, and nobody when it has none; who was not below the seat
    keeps their superiors.
  */
  lemma {:induction false} PatchMoves(c: Chart, node: nat, p: Patch)
    requires PatchSeat(c, node, p).reply == Done && p.parent.Some? && !c.seats[node].isRoot
    ensures var before, after := Parents(c.seats), Parents(PatchSeat(c, node, p).chart.seats);
            && (forall a: nat ::
                  Above(after, a, node) <==> p.parent.value.Some? && AtOrAbove(before, a, p.parent.value.value))
            && (forall x: nat, a: nat ::
                  !AtOrAbove(before, node, x) ==> (AtOrAbove(after, a, x) <==> AtOrAbove(before, a, x)))
  {
    var before, after := Parents(c.seats), Parents(PatchSeat(c, node, p).chart.seats);
    var parent := p.parent.value;
    PatchDone(c, node, p);
    assert parent.Some? ==> !AtOrAbove(before, node, parent.value) by { hide RootSeat; }
    assert after == before[node := parent] by { hide PatchSeat; }
    hide PatchSeat, AtOrAbove, Above, Parents;
    forall a: nat ensures Above(after, a, node) <==> parent.Some? && AtOrAbove(before, a, parent.value) {
      AboveStep(after, a, node);
      if parent.Some? { LinesAway(before, node, parent, parent.value); }
    }
    forall x: nat, a: nat | !AtOrAbove(before, node, x) ensures AtOrAbove(after, a, x) <==> AtOrAbove(before, a, x) {
      LinesAway(before, node, parent, x);
    }
  }

  // ------------------------------------------------------------ adding a seat

  /** A seat is created, empty, under the posted parent; refused for the cap exactly when one more would exceed it. */
  lemma {:induction false} CreateDone(c: Chart, parent: Option<nat>)
    requires Forest(c)
    ensures var r := Create(c, parent);
            && (r.reply == Done ==>
                  && c.nextSeat !in c.seats && r.chart == c.(seats := r.chart.seats, nextSeat := c.nextSeat + 1)
                  && r.chart.seats.Keys == c.seats.Keys + {c.nextSeat}
                  && OthersKept(c.seats, r.chart.seats, c.nextSeat, None)
                  && r.chart.seats[c.nextSeat] == Seat(parent, false, None)
                  && (c.cap.Some? ==> OrdinarySeats(r.chart.seats) < c.cap.value))
            && (r.reply == SeatCap ==> c.cap.Some? && OrdinarySeats(c.seats) + 1 >= c.cap.value)
            && (r.reply == ParentNotFound ==> parent.Some? && parent.value !in c.seats)
            && r.reply in {Done, SeatCap, ParentNotFound} && (r.reply != Done ==> r.chart == c)
  {
    var r := Create(c, parent);
    if r.reply == Done { OneMoreSeat(c.seats, c.nextSeat, Seat(parent, false, None)); }
  }

  lemma {:induction false} OneMoreSeat(seats: Seats, x: nat, seat: Seat)
    requires x !in seats && !seat.isRoot
    ensures OrdinarySeats(seats[x := seat]) == OrdinarySeats(seats) + 1
  {
    assert OrdinaryIds(seats[x := seat]) == OrdinaryIds(seats) + {x};
  }

  /** A deleted seat is gone; its children hang on its own parent, or on the root, and nobody else moves. */
  lemma {:induction false} DeleteDone(c: Chart, node: nat)
    requires Delete(c, node).reply == Done
    ensures var after := Delete(c, node).chart.seats;
            && SeatsOnly(c, Delete(c, node).chart) && node in c.seats && after.Keys == c.seats.Keys - {node}
            && forall x :: x in after ==>
                 && after[x].occupant == c.seats[x].occupant && after[x].isRoot == c.seats[x].isRoot
                 && if c.seats[x].parent != Some(node) then after[x].parent == c.seats[x].parent
                    else if c.seats[node].parent.Some? then after[x].parent == c.seats[node].parent
                    else after[x].parent == RootSeat(c.seats)
  {
    hide RootSeat;
  }

  /** A new active account holds the seat it was created in, and nobody else's seat changes. */
  lemma {:induction false} CreateUserDone(c: Chart, node: nat)
    requires Forest(c) && CreateUser(c, node).reply == Done
    ensures var after := CreateUser(c, node).chart;
            && node in c.seats && c.seats[node].occupant.None? && c.nextUser !in c.accounts
            && after.accounts == c.accounts + {c.nextUser} && after.active == c.active + {c.nextUser}
            && after.nextSeat == c.nextSeat && after.cap == c.cap && after.nextUser == c.nextUser + 1
            && after.seats.Keys == c.seats.Keys && OthersKept(c.seats, after.seats, node, None)
            && after.seats[node].parent == c.seats[node].parent && after.seats[node].isRoot == c.seats[node].isRoot
            && HoldsOnly(after.seats, c.nextUser, node)
            && (c.cap.Some? && c.cap.value > 0 ==> |after.active| <= c.cap.value)
  {
    assert c.nextUser !in c.active;
    hide Acyclic;
  }

  // ------------------------------------------------------------------ the root

  ghost predicate Succeeds(c: Chart, after: Chart, user: nat, root: nat) {
    && user in c.accounts && IsRootSeat(after.seats, root) && after.seats[root].parent.None?
    && after.seats.Keys == c.seats.Keys + {root} && OthersKept(c.seats, after.seats, root, Some(user))
    && HoldsOnly(after.seats, user, root)
  }

  /**
    The root seat passes to `user`, who leaves any other seat; it is the seat it was, or a new one
    when there was none.
  */
  lemma {:induction false} ReassignDone(c: Chart, user: nat)
    requires Forest(c) && ReassignRoot(c, user).reply == Done
    ensures var after := ReassignRoot(c, user).chart;
            match RootSeat(c.seats)
            case Some(r) => r in c.seats && SeatsOnly(c, after) && Succeeds(c, after, user, r)
            case None => && c.nextSeat !in c.seats && after == c.(seats := after.seats, nextSeat := c.nextSeat + 1)
                         && Succeeds(c, after, user, c.nextSeat)
  {
    match RootSeat(c.seats) {
      case Some(r) =>
        assert IsRootSeat(c.seats, r);
        hide *;
        RootPasses(c, user, r);
      case None =>
        hide *;
        RootMade(c, user);
    }
  }

  /** Seated in `node` after leaving every other seat. */
  lemma {:induction false} VacateThenSeat(seats: Seats, user: nat, node: nat, seat: Seat)
    requires seat.occupant == Some(user)
    ensures var after := Vacated(seats, user, node)[node := seat];
            && after.Keys == seats.Keys + {node} && OthersKept(seats, after, node, Some(user))
            && HoldsOnly(after, user, node)
  {}

  lemma {:induction false} RootPasses(c: Chart, user: nat, r: nat)
    requires Forest(c) && RootSeat(c.seats) == Some(r) && IsRootSeat(c.seats, r) && ReassignRoot(c, user).reply == Done
    ensures r in c.seats && SeatsOnly(c, ReassignRoot(c, user).chart)
         && Succeeds(c, ReassignRoot(c, user).chart, user, r)
  {
    var seat := Seat(None, true, Some(user));
    assert ReassignRoot(c, user).chart == c.(seats := Vacated(c.seats, user, r)[r := seat]) by {
      hide Acyclic, OneSeatEach, KnownIds, RootSeat;
    }
    hide Forest, RootSeat, ReassignRoot, Vacated;
    VacateThenSeat(c.seats, user, r, seat);
  }

  lemma {:induction false} RootMade(c: Chart, user: nat)
    requires Forest(c) && RootSeat(c.seats).None? && ReassignRoot(c, user).reply == Done
    ensures var after := ReassignRoot(c, user).chart;
            && c.nextSeat !in c.seats && after == c.(seats := after.seats, nextSeat := c.nextSeat + 1)
            && Succeeds(c, after, user, c.nextSeat)
  {
    var seat, next := Seat(None, true, Some(user)), c.nextSeat;
    assert next !in c.seats by { hide Acyclic, OneSeatEach, OneRoot, RootSeat, ReassignRoot; }
    hide Forest, RootSeat, Vacated;
    assert ReassignRoot(c, user).chart == c.(seats := Vacated(c.seats, user, next)[next := seat], nextSeat := next + 1);
    hide ReassignRoot;
    VacateThenSeat(c.seats, user, next, seat);
  }

  /** `user` sits in a new root; the old one is an ordinary seat under it, still held by whoever held it. */
  lemma {:induction false} OnTopDone(c: Chart, user: nat)
    requires Forest(c) && RootSeat(c.seats).Some? && RootOnTop(c, user).reply == Done
    ensures var after, lowered := RootOnTop(c, user).chart, RootSeat(c.seats).value;
            && user in c.accounts && !Seated(c.seats, user) && c.nextSeat !in c.seats && lowered in c.seats
            && after.seats.Keys == c.seats.Keys + {c.nextSeat} && OthersKept(c.seats, after.seats, lowered, None)
            && after.seats[c.nextSeat] == Seat(None, true, Some(user))
            && after.seats[lowered] == Seat(Some(c.nextSeat), false, c.seats[lowered].occupant)
            && HoldsOnly(after.seats, user, c.nextSeat)
            && after == c.(seats := after.seats, nextSeat := c.nextSeat + 1)
  {
    hide Acyclic;
    assert IsRootSeat(c.seats, RootSeat(c.seats).value);
  }

  /**
    Everybody who was above or below somebody still is, and the new root is above every seat of the
    old root's tree.
  */
  lemma {:induction false} OnTopLines(c: Chart, user: nat, x: nat, a: nat)
    requires Forest(c) && RootSeat(c.seats).Some? && RootOnTop(c, user).reply == Done && x in c.seats
    ensures var before, after := Parents(c.seats), Parents(RootOnTop(c, user).chart.seats);
            AtOrAbove(after, a, x) <==>
              AtOrAbove(before, a, x) || (a == c.nextSeat && AtOrAbove(before, RootSeat(c.seats).value, x))
  {
    hide *;
    ParentsKnown(c);
    OnTopParents(c, user);
    TopAdded(Parents(c.seats), RootSeat(c.seats).value, c.nextSeat, x, a);
  }

  lemma {:induction false} ParentsKnown(c: Chart)
    requires Forest(c)
    ensures var links := Parents(c.seats);
            && links.Keys == c.seats.Keys && c.nextSeat !in links
            && (forall y :: y in links && links[y].Some? ==> links[y].value in links)
    ensures RootSeat(c.seats).Some? ==>
              var r := RootSeat(c.seats).value; r in c.seats && Parents(c.seats)[r].None?
  {
    hide Acyclic, OneSeatEach;
    if RootSeat(c.seats).Some? { assert IsRootSeat(c.seats, RootSeat(c.seats).value); }
  }

  lemma {:induction false} OnTopParents(c: Chart, user: nat)
    requires Forest(c) && RootSeat(c.seats).Some? && RootOnTop(c, user).reply == Done
    ensures Parents(RootOnTop(c, user).chart.seats)
         == Parents(c.seats)[RootSeat(c.seats).value := Some(c.nextSeat)][c.nextSeat := None]
  {
    OnTopDone(c, user);
    hide Forest, RootOnTop, RootSeat, HoldsOnly, Seated;
  }

  lemma {:induction false} TopAdded(links: Links, r: nat, top: nat, x: nat, a: nat)
    requires r in links && links[r].None? && top !in links && x in links
    requires forall y :: y in links && links[y].Some? ==> links[y].value in links
    ensures AtOrAbove(links[r := Some(top)][top := None], a, x)
       <==> AtOrAbove(links, a, x) || (a == top && AtOrAbove(links, r, x))
  {
    var raised := links[r := Some(top)][top := None];
    if AtOrAbove(links, a, x) {
      var k: nat :| Up(links, x, k) == Some(a);
      RaisedUp(links, r, top, x, k);
    }
    if a == top && AtOrAbove(links, r, x) {
      var k: nat :| Up(links, x, k) == Some(r);
      RaisedUp(links, r, top, x, k);
      assert Up(raised, x, k + 1) == Some(top);
    }
    if AtOrAbove(raised, a, x) {
      var k: nat :| Up(raised, x, k) == Some(a);
      RaisedFrom(links, r, top, x, k);
    }
  }

  lemma {:induction false} RaisedUp(links: Links, r: nat, top: nat, x: nat, k: nat)
    requires r in links && links[r].None? && top !in links && x in links && Up(links, x, k).Some?
    requires forall y :: y in links && links[y].Some? ==> links[y].value in links
    ensures Up(links[r := Some(top)][top := None], x, k) == Up(links, x, k) && Up(links, x, k).value in links
  {
    if k > 0 { RaisedUp(links, r, top, x, k - 1); }
  }

  lemma {:induction false} RaisedFrom(links: Links, r: nat, top: nat, x: nat, k: nat)
    requires r in links && links[r].None? && top !in links && x in links
    requires forall y :: y in links && links[y].Some? ==> links[y].value in links
    requires Up(links[r := Some(top)][top := None], x, k).Some?
    ensures var a := Up(links[r := Some(top)][top := None], x, k);
            if a == Some(top) then AtOrAbove(links, r, x) else a == Up(links, x, k) && a.value in links
  {
    if k > 0 {
      RaisedFrom(links, r, top, x, k - 1);
      if Up(links[r := Some(top)][top := None], x, k - 1) == Some(r) { assert Up(links, x, k - 1) == Some(r); }
    }
  }

  // --------------------------------------------------------------- the accounts

  /** Activating or deactivating an account touches no seat and no other account. */
  lemma {:induction false} SetActiveDone(c: Chart, user: nat, on: bool)
    requires SetActive(c, user, on).reply == Done
    ensures var after := SetActive(c, user, on).chart;
            && user in c.accounts && after == c.(active := after.active)
            && (user in after.active <==> on) && forall u :: u != user ==> (u in after.active <==> u in c.active)
  {}

  /** The first graph: a root for `rootUser`, and for each of the others, in order, a seat under it. */
  lemma {:induction false} SeedDone(c: Chart, rootUser: Option<nat>, others: seq<nat>)
    requires Seed(c, rootUser, others).reply == Done
    ensures var after := Seed(c, rootUser, others).chart;
            && c.seats == map[] && after == c.(seats := after.seats, nextSeat := c.nextSeat + 1 + |others|)
            && (forall x :: x in after.seats <==> c.nextSeat <= x <= c.nextSeat + |others|)
            && after.seats[c.nextSeat] == Seat(None, true, rootUser)
            && forall i :: 0 <= i < |others| ==>
                 after.seats[c.nextSeat + 1 + i] == Seat(Some(c.nextSeat), false, Some(others[i]))
  {
    SeatAllDone(Placed(c, Seat(None, true, rootUser)), c.nextSeat, others);
  }

  lemma {:induction false} SeatAllDone(c: Chart, root: nat, users: seq<nat>)
    requires forall x :: x in c.seats ==> x < c.nextSeat
    ensures var after := SeatAll(c, root, users);
            && after == c.(seats := after.seats, nextSeat := c.nextSeat + |users|)
            && (forall x :: x in after.seats <==> x in c.seats || c.nextSeat <= x < c.nextSeat + |users|)
            && (forall x :: x in c.seats ==> after.seats[x] == c.seats[x])
            && forall i :: 0 <= i < |users| ==> after.seats[c.nextSeat + i] == Seat(Some(root), false, Some(users[i]))
    decreases |users|
  {
    if users != [] {
      var next := Placed(c, Seat(Some(root), false, Some(users[0])));
      SeatAllDone(next, root, users[1..]);
      var after := SeatAll(c, root, users);
      forall i | 0 <= i < |users| ensures after.seats[c.nextSeat + i] == Seat(Some(root), false, Some(users[i])) {
        if i > 0 {
          assert users[i] == users[1..][i - 1] && after.seats[next.nextSeat + (i - 1)].occupant == Some(users[i]);
        }
      }
    }
  }

  // ---------------------------------------------------------------- the answers

  ghost predicate HasRoot(seats: Seats) {
    exists r :: IsRootSeat(seats, r)
  }

  /** There is room for one more active account. */
  predicate Room(c: Chart) {
    c.cap.None? || c.cap.value == 0 || |c.active| < c.cap.value
  }

  /** What a request to change the canvas needs in order to be carried out. */
  ghost predicate Allowed(c: Chart, e: Edit) {
    match e
    case Creating(parent) =>
      && (c.cap.None? || OrdinarySeats(c.seats) + 1 < c.cap.value) && (parent.None? || parent.value in c.seats)
    case Deleting(node) => node in c.seats && !c.seats[node].isRoot
    case Patching(node, p) =>
      && PassesChecks(c, node, p)
      && (p.otpRefused ==> if p.occupant.Some? then p.occupant.value.None? else c.seats[node].occupant.None?)
    case CreatingUser(node) => node in c.seats && c.seats[node].occupant.None? && Room(c)
    case ReassigningRoot(user) => user in c.accounts
    case RootingOnTop(user) => user in c.accounts && (HasRoot(c.seats) ==> !Seated(c.seats, user))
    case SeatingNewUser(user) => user in c.accounts && HasRoot(c.seats) && !Seated(c.seats, user)
    case Seeding(rootUser, others) => ProperEdit(c, e) && c.seats == map[]
    case Hiring => (exists r :: IsRootSeat(c.seats, r) && c.seats[r].occupant.Some?) && Room(c)
    case Activating(user, on) => user in c.accounts
    case Removing(user) => user in c.accounts
    case Capping(cap) => true
  }

  /** An edit is carried out exactly when it is allowed; what is not, a PATCH apart, changes nothing. */
  lemma {:induction false} EditAnswers(c: Chart, e: Edit)
    requires Forest(c)
    ensures Apply(c, e).reply == Done <==> Allowed(c, e)
    ensures !Allowed(c, e) && !e.Patching? ==> Apply(c, e).chart == c
  {
    hide Forest, AtOrAbove, Vacated, SeatAll, OrdinarySeats, Parents, Placed;
    RootFound(c.seats);
    hide RootSeat;
    match e {
      case Creating(_) =>
      case Deleting(_) =>
      case Patching(_, _) =>
      case CreatingUser(_) =>
      case ReassigningRoot(_) =>
      case RootingOnTop(_) =>
      case SeatingNewUser(_) =>
      case Seeding(_, _) =>
      case Hiring => HireAnswers(c);
      case Activating(_, _) =>
      case Removing(_) =>
      case Capping(_) =>
    }
  }

  lemma {:induction false} RootFound(seats: Seats)
    ensures RootSeat(seats).Some? <==> HasRoot(seats)
    ensures RootSeat(seats).Some? ==> IsRootSeat(seats, RootSeat(seats).value)
  {}

  lemma {:induction false} HireAnswers(c: Chart)
    requires Forest(c)
    ensures Hire(c).reply == Done <==> Allowed(c, Hiring)
    ensures Hire(c).reply != Done ==> Hire(c).chart == c
  {
    RootFound(c.seats);
    hide RootSeat, Acyclic, KnownIds, OneSeatEach, SeatNewUser;
    forall r: nat | IsRootSeat(c.seats, r) ensures RootSeat(c.seats) == Some(r) {}
  }
}
