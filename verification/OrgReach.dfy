/**
  Who is below whom: the seats below a seat on the canvas, the legacy reports_to
  relation mirrored from the canvas, and the walk over that relation.
*/
module OrgReach {
  import opened Wrappers
  import opened Links
  import opened OrgGraph

  // ------------------------------------------------------------- walking down

  /** Everything below `start`, cycles or not; the walk of both reach queries. */
  method Descendants(links: Links, start: nat) returns (found: set<nat>)
    ensures found == set x | x in links && Above(links, start, x)
  {
    hide Above, AtOrAbove, Up;
    found := {};
    var frontier := [start];
    while frontier != []
      invariant forall x :: x in found ==> x in links && Above(links, start, x)
      invariant forall y :: y in frontier ==> y == start || y in found
      invariant forall x, p :: x in links && links[x] == Some(p) && (p == start || p in found) ==>
          x in found || p in frontier
      decreases links.Keys - found, |frontier|
    {
      var cur := frontier[|frontier| - 1];
      ghost var was := frontier;
      frontier := frontier[..|frontier| - 1];
      assert was == frontier + [cur];
      var kids := set x | x in links && links[x] == Some(cur) && x !in found;
      forall x | x in kids ensures Above(links, start, x) {
        AboveStep(links, start, x);
        AboveStep(links, start, cur);
      }
      ghost var before := found;
      var todo := kids;
      while todo != {}
        invariant todo <= kids && found == before + (kids - todo)
        invariant forall y :: y in frontier <==> y in was[..|was| - 1] || y in kids - todo
        invariant kids == {} ==> frontier == was[..|was| - 1]
        decreases todo
      {
        var child :| child in todo;
        found := found + {child};
        frontier := frontier + [child];
        todo := todo - {child};
      }
      assert found == before + kids;
      if kids != {} { assert links.Keys - found < links.Keys - before; }
      else { assert found == before; }
    }
    ClosedIsAll(links, start, found);
  }

  lemma {:induction false} ClosedIsAll(links: Links, start: nat, found: set<nat>)
    requires ClosedBelow(links, start, found)
    requires forall x :: x in found ==> x in links && Above(links, start, x)
    ensures found == set x | x in links && Above(links, start, x)
  {
    forall x | x in links && Above(links, start, x) ensures x in found {
      var k :| k > 0 && Up(links, x, k) == Some(start);
      ClosedHoldsAll(links, start, found, x, k);
    }
  }

  /** _would_cycle: walk up from the new parent until the seat, the top or a repetition. */
  method WouldCycle(seats: Seats, node: nat, newParent: nat) returns (loops: bool)
    requires newParent in seats
    ensures loops <==> AtOrAbove(Parents(seats), node, newParent)
  {
    ghost var links := Parents(seats);
    var cur := Some(newParent);
    var seen: set<nat> := {};
    ghost var k: nat := 0;
    while cur.Some? && cur.value !in seen && cur.value in seats
      invariant cur == Up(links, newParent, k)
      invariant seen <= seats.Keys && node !in seen
      invariant Trodden(links, seen, cur)
      invariant k == 0 ==> seen == {}
      invariant k > 0 ==> newParent in seen
      decreases seats.Keys - seen
    {
      if cur.value == node {
        return true;
      }
      seen := seen + {cur.value};
      cur := seats[cur.value].parent;
      k := k + 1;
    }
    loops := cur.Some? && cur.value !in seen && cur.value == node;
    if loops {
      assert Up(links, newParent, k) == Some(node);
    } else if AtOrAbove(links, node, newParent) {
      var m: nat :| Up(links, newParent, m) == Some(node);
      TrailStays(links, newParent, seen, cur, m);
    }
  }

  // ------------------------------------------------------------------- mirror

  /** The person `k` seats above `x`, when that seat is held by somebody else. */
  ghost function HolderAt(seats: Seats, x: nat, k: nat): Option<nat>
    requires x in seats
  {
    var a := Up(Parents(seats), x, k);
    if a.Some? && a.value in seats && seats[a.value].occupant != seats[x].occupant
    then seats[a.value].occupant else None
  }

  /** `s` holds the nearest occupied seat above `x`, empty seats being skipped. */
  ghost predicate Supervises(seats: Seats, x: nat, s: Option<nat>)
    requires x in seats
  {
    match s
    case Some(u) =>
      exists k: nat :: && k > 0 && HolderAt(seats, x, k) == s
                       && forall j: nat :: 0 < j < k ==> HolderAt(seats, x, j).None?
    case None => forall k: nat :: k > 0 ==> HolderAt(seats, x, k).None?
  }

  method Supervisor(seats: Seats, nid: nat) returns (s: Option<nat>)
    requires nid in seats
    ensures Supervises(seats, nid, s)
  {
    ghost var links := Parents(seats);
    var pid := seats[nid].parent;
    var seen := {nid};
    ghost var k: nat := 1;
    assert Up(links, nid, 0) == Some(nid);
    while pid.Some? && pid.value !in seen && pid.value in seats
      invariant k > 0 && pid == Up(links, nid, k)
      invariant nid in seen && seen <= seats.Keys
      invariant Trodden(links, seen, pid)
      invariant forall y :: y in seen ==> seats[y].occupant.None? || seats[y].occupant == seats[nid].occupant
      invariant forall j: nat :: 0 < j < k ==> HolderAt(seats, nid, j).None?
      decreases seats.Keys - seen
    {
      var parent := seats[pid.value];
      seen := seen + {pid.value};
      if parent.occupant.Some? && parent.occupant != seats[nid].occupant {
        assert HolderAt(seats, nid, k) == parent.occupant;
        return parent.occupant;
      }
      pid := parent.parent;
      k := k + 1;
    }
    s := None;
    forall m: nat | m > 0 ensures HolderAt(seats, nid, m).None? {
      TrailStays(links, nid, seen, pid, m);
    }
  }

  ghost function Holders(seats: Seats): set<nat> {
    set x | x in seats && seats[x].occupant.Some? :: seats[x].occupant.value
  }

  type Reports = map<nat, Option<nat>>

  /** reports_to after the mirror: every seated person's supervisor, everyone else unchanged. */
  ghost predicate Mirrors(seats: Seats, before: Reports, after: Reports) {
    && after.Keys == before.Keys
    && (forall x :: x in seats && seats[x].occupant.Some? ==>
          seats[x].occupant.value in after && Supervises(seats, x, after[seats[x].occupant.value]))
    && (forall u :: u in before && !Seated(seats, u) ==> after[u] == before[u])
  }

  /** The supervisor wanted for every seated person. */
  method WantedSupervisors(seats: Seats) returns (wanted: Reports)
    requires OneSeatEach(seats)
    ensures wanted.Keys == Holders(seats)
    ensures forall x :: x in seats && seats[x].occupant.Some? ==> Supervises(seats, x, wanted[seats[x].occupant.value])
  {
    hide Supervises;
    wanted := map[];
    var todo := seats.Keys;
    while todo != {}
      invariant todo <= seats.Keys
      invariant forall u :: u in wanted <==> exists x :: x in seats && x !in todo && seats[x].occupant == Some(u)
      invariant forall x :: x in seats && x !in todo && seats[x].occupant.Some? ==>
                  Supervises(seats, x, wanted[seats[x].occupant.value])
      decreases todo
    {
      var nid :| nid in todo;
      var oid := seats[nid].occupant;
      if oid.Some? {
        var supervisor := Supervisor(seats, nid);
        wanted := wanted[oid.value := supervisor];
      }
      todo := todo - {nid};
    }
  }

  /** Rows that already hold the wanted supervisor are left alone; the others are counted. */
  method StoreSupervisors(reports: Reports, wanted: Reports) returns (after: Reports, changed: nat)
    requires wanted.Keys <= reports.Keys
    ensures after == reports + wanted
    ensures changed == |set u | u in reports && after[u] != reports[u]|
  {
    after, changed := reports, 0;
    var left := wanted.Keys;
    ghost var differing: set<nat> := {};
    while left != {}
      invariant left <= wanted.Keys && after.Keys == reports.Keys
      invariant forall u :: u in reports ==> after[u] == if u in wanted && u !in left then wanted[u] else reports[u]
      invariant differing == set u | u in reports && after[u] != reports[u]
      invariant changed == |differing|
      decreases left
    {
      var uid :| uid in left;
      if after[uid] != wanted[uid] {
        after := after[uid := wanted[uid]];
        changed := changed + 1;
        differing := differing + {uid};
      }
      left := left - {uid};
    }
    assert after == reports + wanted;
  }

  method SyncReportsTo(seats: Seats, reports: Reports) returns (after: Reports, changed: nat)
    requires OneSeatEach(seats) && Holders(seats) <= reports.Keys
    ensures Mirrors(seats, reports, after)
    ensures changed == |set u | u in reports && after[u] != reports[u]|
  {
    hide Supervises;
    var wanted := WantedSupervisors(seats);
    after, changed := StoreSupervisors(reports, wanted);
  }

  // ---------------------------------------------------------- the two agree

  /** graph_subtree_user_ids: the occupants of the seats below `seat`. */
  ghost function CanvasTeam(seats: Seats, seat: nat): set<nat> {
    set x | x in seats && Above(Parents(seats), seat, x) && seats[x].occupant.Some? :: seats[x].occupant.value
  }

  /** subtree_user_ids: everyone whose reporting chain leads to `manager`. */
  ghost function ReportingTeam(reports: Reports, manager: nat): set<nat> {
    set u | u in reports && Above(reports, manager, u)
  }

  method GraphSubtreeUserIds(seats: Seats, seat: nat) returns (ids: set<nat>)
    requires seat in seats && seats[seat].occupant.Some? && OneSeatEach(seats)
    ensures ids == CanvasTeam(seats, seat) - {seats[seat].occupant.value}
  {
    var below := Descendants(Parents(seats), seat);
    ids := set x | x in below && x in seats && seats[x].occupant.Some? :: seats[x].occupant.value;
    ids := ids - {seats[seat].occupant.value};
  }

  method SubtreeUserIds(reports: Reports, manager: nat) returns (ids: set<nat>)
    ensures ids == ReportingTeam(reports, manager)
  {
    ids := Descendants(reports, manager);
  }

  /** A supervised person's supervisor sits above them, with nobody else in between. */
  lemma {:induction false} SupervisorSeat(seats: Seats, x: nat, u: nat) returns (k: nat, a: nat)
    requires x in seats && Supervises(seats, x, Some(u))
    ensures k > 0 && Up(Parents(seats), x, k) == Some(a) && a in seats && seats[a].occupant == Some(u)
    ensures forall j: nat :: 0 < j < k ==> HolderAt(seats, x, j).None?
  {
    k :| k > 0 && HolderAt(seats, x, k) == Some(u) && forall j: nat :: 0 < j < k ==> HolderAt(seats, x, j).None?;
    a := Up(Parents(seats), x, k).value;
  }

  /** The nearest occupied seat above `x` is no further than any seat above it held by somebody else. */
  lemma {:induction false} NearestHolder(seats: Seats, before: Reports, after: Reports, s: nat, x: nat, k: nat)
    returns (j: nat, a: nat)
    requires OneSeatEach(seats) && Mirrors(seats, before, after)
    requires s in seats && seats[s].occupant.Some? && x in seats && seats[x].occupant.Some?
    requires k > 0 && Up(Parents(seats), x, k) == Some(s) && s != x
    ensures a in seats && seats[a].occupant.Some? && after[seats[x].occupant.value] == seats[a].occupant
    ensures 0 < j <= k && Up(Parents(seats), a, k - j) == Some(s) && (j == k ==> a == s)
  {
    var u := seats[x].occupant.value;
    assert HolderAt(seats, x, k) == seats[s].occupant;
    j, a := SupervisorSeat(seats, x, after[u].value);
    UpCompose(Parents(seats), x, j, k - j);
  }

  /** Down the canvas means down the mirrored relation. */
  lemma {:induction false} CanvasToReports(seats: Seats, before: Reports, after: Reports, s: nat, x: nat, k: nat)
    requires OneSeatEach(seats) && Mirrors(seats, before, after)
    requires s in seats && seats[s].occupant.Some? && x in seats && seats[x].occupant.Some?
    requires k > 0 && Up(Parents(seats), x, k) == Some(s) && s != x
    ensures Above(after, seats[s].occupant.value, seats[x].occupant.value)
    decreases k
  {
    hide Supervises, Parents, Above, AtOrAbove, Up;
    var m, u := seats[s].occupant.value, seats[x].occupant.value;
    var j, a := NearestHolder(seats, before, after, s, x, k);
    AboveStep(after, m, u);
    AboveStep(after, m, seats[a].occupant.value);
    if a != s {
      CanvasToReports(seats, before, after, s, a, k - j);
    }
  }

  lemma {:induction false} SupervisorAbove(seats: Seats, before: Reports, after: Reports, x: nat) returns (a: nat)
    requires Mirrors(seats, before, after) && x in seats && seats[x].occupant.Some?
    requires after[seats[x].occupant.value].Some?
    ensures Above(Parents(seats), a, x) && a in seats && seats[a].occupant == after[seats[x].occupant.value]
  {
    var k;
    k, a := SupervisorSeat(seats, x, after[seats[x].occupant.value].value);
  }

  /** Down the mirrored relation, from a seated person, means down the canvas. */
  lemma {:induction false} ReportsToCanvas(seats: Seats, before: Reports, after: Reports, s: nat, x: nat, k: nat)
    requires OneSeatEach(seats) && Mirrors(seats, before, after)
    requires s in seats && seats[s].occupant.Some? && x in seats && seats[x].occupant.Some?
    requires k > 0 && Up(after, seats[x].occupant.value, k) == seats[s].occupant
    ensures Above(Parents(seats), s, x)
    decreases k
  {
    hide Supervises, Parents, Above, AtOrAbove;
    var u := seats[x].occupant.value;
    assert Up(after, u, 0) == Some(u) && Up(after, u, 1) == after[u];
    UpDefined(after, u, 1, k);
    var a := SupervisorAbove(seats, before, after, x);
    if k > 1 {
      UpCompose(after, u, 1, k - 1);
      ReportsToCanvas(seats, before, after, s, a, k - 1);
      AboveStep(Parents(seats), s, a);
      AboveTransitive(Parents(seats), s, a, x);
    } else {
      assert a == s;
    }
  }

  /**
    Both reach queries give a seated manager the same seated people, whatever empty
    seats lie between, and nobody seated reports to themselves.
  */
  lemma {:induction false} ReachAgrees(seats: Seats, before: Reports, after: Reports, s: nat)
    requires OneSeatEach(seats) && Acyclic(Parents(seats)) && Mirrors(seats, before, after)
    requires s in seats && seats[s].occupant.Some?
    ensures ReportingTeam(after, seats[s].occupant.value) * Holders(seats) == CanvasTeam(seats, s)
    ensures seats[s].occupant.value !in CanvasTeam(seats, s)
    ensures !Above(after, seats[s].occupant.value, seats[s].occupant.value)
  {
    var m := seats[s].occupant.value;
    forall x | x in seats && seats[x].occupant.Some?
      ensures Above(after, m, seats[x].occupant.value) <==> Above(Parents(seats), s, x)
    {
      var u := seats[x].occupant.value;
      if Above(after, m, u) {
        var k :| k > 0 && Up(after, u, k) == Some(m);
        ReportsToCanvas(seats, before, after, s, x, k);
      }
      if Above(Parents(seats), s, x) {
        assert s in Parents(seats);
        var k :| k > 0 && Up(Parents(seats), x, k) == Some(s);
        CanvasToReports(seats, before, after, s, x, k);
      }
    }
    assert s in Parents(seats) && !Above(Parents(seats), s, s);
  }

  /**
    The two queries differ only by people without a seat: they return the same team
    exactly when no unseated person reports straight to the manager or to the team.
  */
  lemma {:induction false} ReachEqual(seats: Seats, before: Reports, after: Reports, s: nat)
    requires OneSeatEach(seats) && Acyclic(Parents(seats)) && Mirrors(seats, before, after)
    requires s in seats && seats[s].occupant.Some?
    ensures ReportingTeam(after, seats[s].occupant.value) == CanvasTeam(seats, s) <==> NoStrays(seats, before, s)
  {
    var m := seats[s].occupant.value;
    ReachAgrees(seats, before, after, s);
    if u :| u in before && u !in Holders(seats) && before[u].Some?
            && (before[u].value == m || before[u].value in CanvasTeam(seats, s)) {
      assert !Seated(seats, u);
      AboveStep(after, m, u);
      AboveStep(after, m, before[u].value);
      assert u in ReportingTeam(after, m) && u !in CanvasTeam(seats, s);
    } else {
      forall u | u in ReportingTeam(after, m) ensures u in Holders(seats) {
        var k :| k > 0 && Up(after, u, k) == Some(m);
        AllSeated(seats, before, after, s, u, k);
      }
    }
  }

  /** Nobody without a seat reports straight to the manager or to the team. */
  ghost predicate NoStrays(seats: Seats, before: Reports, s: nat)
    requires s in seats && seats[s].occupant.Some?
  {
    !exists u :: u in before && u !in Holders(seats) && before[u].Some?
              && (before[u].value == seats[s].occupant.value || before[u].value in CanvasTeam(seats, s))
  }

  lemma {:induction false} AllSeated(seats: Seats, before: Reports, after: Reports, s: nat, u: nat, k: nat)
    requires OneSeatEach(seats) && Acyclic(Parents(seats)) && Mirrors(seats, before, after)
    requires s in seats && seats[s].occupant.Some? && NoStrays(seats, before, s)
    requires u in after && k > 0 && Up(after, u, k) == seats[s].occupant
    ensures u in Holders(seats)
    decreases k
  {
    hide Acyclic, Mirrors, NoStrays, CanvasTeam, ReportingTeam, Holders, OneSeatEach, Parents, Supervises;
    var m := seats[s].occupant.value;
    assert Up(after, u, 0) == Some(u) && Up(after, u, 1) == after[u];
    UpDefined(after, u, 1, k);
    var v := after[u].value;
    if k > 1 {
      UpCompose(after, u, 1, k - 1);
      UpDefined(after, v, 1, k - 1);
      assert Up(after, v, 0) == Some(v) && v in after;
      AllSeated(seats, before, after, s, v, k - 1);
      ReachAgrees(seats, before, after, s);
      InTeam(after, m, v);
    }
    if u !in Holders(seats) {
      StraysFound(seats, before, after, s, u);
    }
  }

  lemma {:induction false} InTeam(reports: Reports, m: nat, v: nat)
    requires v in reports && Above(reports, m, v)
    ensures v in ReportingTeam(reports, m)
  {}

  lemma {:induction false} StraysFound(seats: Seats, before: Reports, after: Reports, s: nat, u: nat)
    requires Mirrors(seats, before, after) && s in seats && seats[s].occupant.Some?
    requires u in after && u !in Holders(seats) && after[u].Some?
    requires after[u] == seats[s].occupant || after[u].value in CanvasTeam(seats, s)
    ensures !NoStrays(seats, before, s)
  {
    assert !Seated(seats, u);
  }

  // ------------------------------------------------------ what a viewer sees

  datatype Scope = Everything | NoPage | Only(ids: set<nat>)

  /** The seats of a viewer's own team, their own seat and their direct superior's. */
  ghost function SeenFrom(seats: Seats, seat: nat): set<nat>
    requires seat in seats
  {
    (set x | x in seats && AtOrAbove(Parents(seats), seat, x))
    + if seats[seat].parent.Some? then {seats[seat].parent.value} else {}
  }

  /** The children of a seat, as a query returns them. */
  method KidsInSomeOrder(links: Links, nid: nat) returns (kids: seq<nat>)
    ensures forall x :: x in kids <==> x in links && links[x] == Some(nid)
  {
    kids := [];
    var todo := set x | x in links && links[x] == Some(nid);
    ghost var all := todo;
    while todo != {}
      invariant todo <= all && forall x :: x in kids <==> x in all - todo
      decreases todo
    {
      var x :| x in todo;
      kids, todo := kids + [x], todo - {x};
    }
  }

  lemma {:induction false} AllSeen(links: Links, start: nat, visible: set<nat>)
    requires visible <= links.Keys && start in visible
    requires forall x :: x in visible ==> AtOrAbove(links, start, x)
    requires forall x, p :: x in links && links[x] == Some(p) && p in visible ==> x in visible
    ensures visible == set x | x in links && AtOrAbove(links, start, x)
  {
    forall x | x in links && AtOrAbove(links, start, x) ensures x in visible {
      AboveStep(links, start, x);
      if x != start {
        var k: nat :| k > 0 && Up(links, x, k) == Some(start);
        ClosedHoldsAll(links, start, visible, x, k);
      }
    }
  }

  /** _visible_scope, for a viewer sitting in `seat`. */
  method VisibleScope(seats: Seats, seat: Option<nat>) returns (scope: Scope)
    requires seat.Some? ==> seat.value in seats
    ensures scope == if seat.None? then NoPage
                     else if seats[seat.value].isRoot then Everything
                     else if forall x :: x in seats ==> seats[x].parent != seat then NoPage
                     else Only(SeenFrom(seats, seat.value))
  {
    if seat.None? { return NoPage; }
    if seats[seat.value].isRoot { return Everything; }
    if forall x :: x in seats ==> seats[x].parent != seat { return NoPage; }
    var links := Parents(seats);
    var visible := {};
    var frontier := [seat.value];
    hide Above, AtOrAbove, Up;
    AboveStep(links, seat.value, seat.value);
    while frontier != []
      invariant visible <= links.Keys && forall y :: y in frontier ==> y in links
      invariant forall x :: x in visible || x in frontier ==> AtOrAbove(links, seat.value, x)
      invariant seat.value in visible || seat.value in frontier
      invariant forall x, p :: x in links && links[x] == Some(p) && p in visible ==> x in visible || x in frontier
      decreases links.Keys - visible, |frontier|
    {
      var nid := frontier[|frontier| - 1];
      ghost var was := frontier;
      frontier := frontier[..|frontier| - 1];
      assert was == frontier + [nid];
      if nid in visible { continue; }
      assert nid in frontier + [nid];
      var kids := KidsInSomeOrder(links, nid);
      forall x | x in kids ensures AtOrAbove(links, seat.value, x) {
        AboveStep(links, seat.value, x);
      }
      visible := visible + {nid};
      frontier := frontier + kids;
    }
    AllSeen(links, seat.value, visible);
    if seats[seat.value].parent.Some? { visible := visible + {seats[seat.value].parent.value}; }
    scope := Only(visible);
  }

  /** The people a viewer sees besides themselves and their superior are exactly their team; never a seat higher up. */
  lemma {:induction false} SeesOwnTeam(seats: Seats, seat: nat)
    requires seat in seats && Acyclic(Parents(seats)) && seats[seat].occupant.Some?
    ensures (set x | x in seats && x in SeenFrom(seats, seat) && x != seat && Some(x) != seats[seat].parent
                     && seats[x].occupant.Some? :: seats[x].occupant.value)
         == CanvasTeam(seats, seat)
    ensures forall x :: x in SeenFrom(seats, seat) && Above(Parents(seats), x, seat) ==> Some(x) == seats[seat].parent
  {
    var links := Parents(seats);
    hide Above, AtOrAbove, Up, Acyclic;
    forall x | x in seats ensures AtOrAbove(links, seat, x) && x != seat <==> Above(links, seat, x) {
      AboveStep(links, seat, x);
      NotBelowItself(links, seat, x);
    }
    forall x | x in seats && Above(links, seat, x) ensures Some(x) != seats[seat].parent {
      AboveStep(links, x, seat);
      AboveStep(links, x, x);
      NotBelowItself(links, x, seat);
    }
    forall x | x in SeenFrom(seats, seat) && Above(links, x, seat) ensures Some(x) == seats[seat].parent {
      if x in links && AtOrAbove(links, seat, x) { NotBelowItself(links, seat, x); }
    }
  }

  /** Without cycles nothing is below itself, directly or through another. */
  lemma {:induction false} NotBelowItself(links: Links, a: nat, x: nat)
    requires Acyclic(links) && a in links
    ensures !Above(links, a, a)
    ensures !(AtOrAbove(links, a, x) && Above(links, x, a))
  {
    if AtOrAbove(links, a, x) && Above(links, x, a) {
      AboveTransitive(links, a, x, a);
    }
  }
}
