/** The canvas as the endpoints update it: each method leaves exactly the chart its edit specifies. */
module OrgChart {
  import opened Wrappers
  import opened Links
  import opened OrgGraph
  import opened OrgReach

  class OrgCanvas {
    var chart: Chart

    constructor (accounts: set<nat>, active: set<nat>, nextUser: nat, cap: Option<nat>)
      requires forall u :: u in accounts ==> u < nextUser
      requires active <= accounts
      ensures Forest(chart) && chart == Chart(map[], 0, accounts, active, nextUser, cap)
    {
      chart := Chart(map[], 0, accounts, active, nextUser, cap);
    }

    /** graph.root_node */
    method RootNode() returns (root: Option<nat>)
      requires Forest(chart)
      ensures root == RootSeat(chart.seats)
    {
      root := None;
      var seats := chart.seats;
      if r :| r in seats && seats[r].isRoot {
        assert IsRootSeat(seats, r);
        root := Some(r);
      } else {
        assert forall x :: !IsRootSeat(seats, x);
      }
    }

    method AddSeat(seat: Seat) returns (node: nat)
      modifies this
      ensures chart == Placed(old(chart), seat) && node == old(chart).nextSeat
    {
      node := chart.nextSeat;
      chart := chart.(seats := chart.seats[node := seat], nextSeat := node + 1);
    }

    /** One seat per person: the prior seats of `user`, other than `keep`, are emptied one by one. */
    method VacateSeats(user: nat, keep: nat)
      modifies this
      ensures chart == old(chart).(seats := Vacated(old(chart).seats, user, keep))
    {
      ghost var seats := chart.seats;
      var held := set x | x in chart.seats && x != keep && chart.seats[x].occupant == Some(user);
      while held != {}
        invariant chart == old(chart).(seats := chart.seats) && chart.seats.Keys == seats.Keys
        invariant held <= set x | x in seats && x != keep && seats[x].occupant == Some(user)
        invariant forall x :: x in seats ==>
                    chart.seats[x] == if x in held then seats[x] else Vacated(seats, user, keep)[x]
        decreases held
      {
        var x :| x in held;
        chart := chart.(seats := chart.seats[x := chart.seats[x].(occupant := None)]);
        held := held - {x};
      }
      assert chart.seats == Vacated(seats, user, keep);
    }

    method CreateNode(parent: Option<nat>) returns (reply: Reply)
      requires Forest(chart)
      modifies this
      ensures Forest(chart) && Edited(chart, reply) == Create(old(chart), parent)
    {
      EditKeepsForest(chart, Creating(parent));
      hide Forest;
      if chart.cap.Some? {
        var ordinary := set x | x in chart.seats && !chart.seats[x].isRoot;
        assert ordinary == OrdinaryIds(chart.seats);
        var used := |ordinary| + 1;
        if used >= chart.cap.value { return SeatCap; }
      }
      if parent.Some? && parent.value !in chart.seats { return ParentNotFound; }
      var _ := AddSeat(Seat(parent, false, None));
      reply := Done;
    }

    method DeleteNode(node: nat) returns (reply: Reply)
      requires Forest(chart)
      modifies this
      ensures Forest(chart) && Edited(chart, reply) == Delete(old(chart), node)
    {
      EditKeepsForest(chart, Deleting(node));
      assert Apply(chart, Deleting(node)) == Delete(chart, node);
      hide Forest, Apply, RootSeat;
      if node !in chart.seats { return NotFound; }
      if chart.seats[node].isRoot { return RootFixed; }
      var fallback := chart.seats[node].parent;
      if fallback.None? { fallback := RootNode(); }
      var seats := chart.seats;
      seats := map x | x in seats ::
        if seats[x].parent == Some(node) then seats[x].(parent := fallback) else seats[x];
      seats := seats - {node};
      assert seats == Delete(old(chart), node).chart.seats;
      chart := chart.(seats := seats);
      reply := Done;
    }

    method PatchNode(node: nat, p: Patch) returns (reply: Reply)
      requires Forest(chart)
      modifies this
      ensures Forest(chart) && Edited(chart, reply) == PatchSeat(old(chart), node, p)
    {
      PatchKeepsForest(chart, node, p);
      hide Forest, AtOrAbove;
      if node !in chart.seats { return NotFound; }
      var seat := chart.seats[node];
      if p.parent.Some? && !seat.isRoot {
        if p.parent.value.None? {
          seat := seat.(parent := None);
        } else {
          if p.parent.value.value !in chart.seats { return ParentNotFound; }
          var loops := WouldCycle(chart.seats, node, p.parent.value.value);
          if loops { return WouldLoop; }
          seat := seat.(parent := p.parent.value);
        }
      }
      if p.occupant.Some? {
        var raw := p.occupant.value;
        if seat.isRoot && seat.occupant.Some? && raw != seat.occupant { return RootFixed; }
        var root := RootNode();
        if !seat.isRoot && raw.Some? && raw == RootHolder(chart.seats, root) { return RootHolderFixed; }
        if raw.Some? {
          if raw.value !in chart.active { return EmployeeNotFound; }
          VacateSeats(raw.value, node);
        }
        seat := seat.(occupant := raw);
      }
      if p.otpRefused && seat.occupant.Some? { return OtpRefused; }
      chart := chart.(seats := chart.seats[node := seat]);
      reply := Done;
    }

    method CreateUserInSeat(node: nat) returns (reply: Reply)
      requires Forest(chart)
      modifies this
      ensures Forest(chart) && Edited(chart, reply) == CreateUser(old(chart), node)
    {
      EditKeepsForest(chart, CreatingUser(node));
      hide Forest;
      if node !in chart.seats { return NotFound; }
      if chart.seats[node].occupant.Some? { return Occupied; }
      if chart.cap.Some? && chart.cap.value > 0 && |chart.active| >= chart.cap.value { return SeatCap; }
      var user := chart.nextUser;
      chart := chart.(accounts := chart.accounts + {user}, active := chart.active + {user}, nextUser := user + 1);
      chart := chart.(seats := chart.seats[node := chart.seats[node].(occupant := Some(user))]);
      reply := Done;
    }

    method MoveRootTo(user: nat) returns (reply: Reply)
      requires Forest(chart)
      modifies this
      ensures Forest(chart) && Edited(chart, reply) == ReassignRoot(old(chart), user)
    {
      ReassignKeepsForest(chart, user);
      hide Forest;
      if user !in chart.accounts { return NotFound; }
      var root := RootNode();
      if root.None? {
        VacateSeats(user, chart.nextSeat);
        var _ := AddSeat(Seat(None, true, Some(user)));
      } else {
        VacateSeats(user, root.value);
        if root.value in chart.seats {
          chart := chart.(seats := chart.seats[root.value := chart.seats[root.value].(occupant := Some(user))]);
        }
      }
      reply := Done;
    }

    method AddRootOnTop(user: nat) returns (reply: Reply)
      requires Forest(chart)
      modifies this
      ensures Forest(chart) && Edited(chart, reply) == RootOnTop(old(chart), user)
    {
      OnTopKeepsForest(chart, user);
      hide Forest, RootSeat, Vacated, ReassignRoot, Placed;
      var root := RootNode();
      if root.None? {
        reply := MoveRootTo(user);
        return;
      }
      if user !in chart.accounts { return NotFound; }
      var seats := chart.seats;
      if exists x :: x in seats && seats[x].occupant == Some(user) { return IntegrityError; }
      RaiseRoot(root.value, user);
      reply := Done;
    }

    /** The old root is demoted before the new one is made, so the one-root constraint holds throughout. */
    method RaiseRoot(prior: nat, user: nat)
      requires prior in chart.seats && prior != chart.nextSeat
      modifies this
      ensures var demoted := old(chart).seats[prior].(isRoot := false, parent := Some(old(chart).nextSeat));
              chart == Placed(old(chart).(seats := old(chart).seats[prior := demoted]), Seat(None, true, Some(user)))
    {
      chart := chart.(seats := chart.seats[prior := chart.seats[prior].(isRoot := false)]);
      var top := AddSeat(Seat(None, true, Some(user)));
      chart := chart.(seats := chart.seats[prior := chart.seats[prior].(parent := Some(top))]);
      ghost var demoted := old(chart).seats[prior].(isRoot := false, parent := Some(top));
      ghost var lowered := old(chart).(seats := old(chart).seats[prior := demoted]);
      assert chart.seats == Placed(lowered, Seat(None, true, Some(user))).seats;
    }

    method SeatUnderRoot(user: nat) returns (reply: Reply)
      requires Forest(chart)
      modifies this
      ensures Forest(chart) && Edited(chart, reply) == SeatNewUser(old(chart), user)
    {
      EditKeepsForest(chart, SeatingNewUser(user));
      assert Apply(chart, SeatingNewUser(user)) == SeatNewUser(chart, user);
      hide Forest, Apply, RootSeat;
      var root := RootNode();
      var seats := chart.seats;
      if root.None? || (exists x :: x in seats && seats[x].occupant == Some(user)) || user !in chart.accounts {
        return Unchanged;
      }
      var _ := AddSeat(Seat(root, false, Some(user)));
      reply := Done;
    }

    /** admin_users_view: an account of the platform admin's making. */
    method Hire() returns (reply: Reply)
      requires Forest(chart)
      modifies this
      ensures Forest(chart) && Edited(chart, reply) == OrgGraph.Hire(old(chart))
    {
      HireKeepsForest(chart);
      ghost var before := chart;
      var root := RootNode();
      var holder := RootHolder(chart.seats, root);
      if holder.None? { return NoRoot; }
      if chart.cap.Some? && chart.cap.value > 0 && |chart.active| >= chart.cap.value { return SeatCap; }
      var user := chart.nextUser;
      chart := chart.(accounts := chart.accounts + {user}, active := chart.active + {user}, nextUser := user + 1);
      assert chart == Grown(before);
      hide OrgGraph.SeatNewUser, Forest, Grown, RootSeat;
      var _ := SeatUnderRoot(user);
      reply := Done;
    }

    /** A deleted account: the database empties its seat. */
    method RemoveAccount(user: nat) returns (reply: Reply)
      requires Forest(chart)
      modifies this
      ensures Forest(chart) && Edited(chart, reply) == OrgGraph.RemoveAccount(old(chart), user)
    {
      RemoveKeepsForest(chart, user);
      hide Forest, Vacated;
      if user !in chart.accounts { return NotFound; }
      VacateSeats(user, chart.nextSeat);
      chart := chart.(accounts := chart.accounts - {user}, active := chart.active - {user});
      reply := Done;
    }

    method SeedGraph(rootUser: Option<nat>, others: seq<nat>) returns (reply: Reply)
      requires Forest(chart) && ProperEdit(chart, Seeding(rootUser, others))
      modifies this
      ensures Forest(chart) && Edited(chart, reply) == Seed(old(chart), rootUser, others)
    {
      EditKeepsForest(chart, Seeding(rootUser, others));
      if chart.seats != map[] { return Unchanged; }
      var root := AddSeat(Seat(None, true, rootUser));
      var i := 0;
      while i < |others|
        invariant i <= |others|
        invariant SeatAll(chart, root, others[i..]) == Seed(old(chart), rootUser, others).chart
      {
        var _ := AddSeat(Seat(Some(root), false, Some(others[i])));
        assert others[i..][1..] == others[i + 1..];
        i := i + 1;
      }
      reply := Done;
    }
  }

  /** Deleting a seat keeps everybody else's line of superiors, the root stepping in where the line would break. */
  lemma {:induction false} DeleteKeepsLines(c: Chart, node: nat, a: nat, x: nat)
    requires Forest(c) && Delete(c, node).reply == Done
    requires a in c.seats && x in c.seats && a != node && x != node
    ensures Above(Parents(Delete(c, node).chart.seats), a, x) <==>
              || Above(Parents(c.seats), a, x)
              || (c.seats[node].parent.None? && RootSeat(c.seats) == Some(a) && Above(Parents(c.seats), node, x))
  {
    var fallback := if c.seats[node].parent.Some? then c.seats[node].parent else RootSeat(c.seats);
    assert Parents(Delete(c, node).chart.seats) == Spliced(Parents(c.seats), node, fallback);
    SpliceKeepsLines(Parents(c.seats), node, fallback, a, x);
    if c.seats[node].parent == Some(a) && Above(Parents(c.seats), node, x) {
      AboveStep(Parents(c.seats), a, node);
      AboveStep(Parents(c.seats), a, a);
      AboveTransitive(Parents(c.seats), a, node, x);
    }
  }

  /**
    When a refusal leaves the chart as it was, read off the request and the chart: always, but for
    a request that passes every check, carries the OTP flag for somebody without a phone, and
    names a person who sits elsewhere. That person's other seat has then been emptied.
  */
  lemma {:induction false} RefusedPatch(c: Chart, node: nat, p: Patch)
    ensures (PatchSeat(c, node, p).reply != Done ==> PatchSeat(c, node, p).chart == c)
       <==> !(PassesChecks(c, node, p) && p.otpRefused && p.occupant.Some? && p.occupant.value.Some?
              && exists x :: x in c.seats && x != node && c.seats[x].occupant == p.occupant.value)
  {
    hide RootSeat, AtOrAbove, Parents;
    if PassesChecks(c, node, p) && p.otpRefused && p.occupant.Some? && p.occupant.value.Some? {
      var after := Vacated(c.seats, p.occupant.value.value, node);
      assert PatchSeat(c, node, p) == Edited(c.(seats := after), OtpRefused);
      if x :| x in c.seats && x != node && c.seats[x].occupant == p.occupant.value {
        assert after[x].occupant.None?;
      } else {
        assert after == c.seats;
      }
    }
  }

  /** A PATCH is refused before it touches anything exactly when it fails a check, and else only for its OTP flag. */
  lemma {:induction false} PatchAnswers(c: Chart, node: nat, p: Patch)
    ensures PatchSeat(c, node, p).reply in {Done, OtpRefused} <==> PassesChecks(c, node, p)
    ensures !PassesChecks(c, node, p) ==> PatchSeat(c, node, p).chart == c
  {
    hide RootSeat, AtOrAbove, Parents;
  }

  /** That case: seat 1's holder is put into seat 2 with an OTP flag they cannot have, and loses seat 1. */
  lemma {:induction false} RefusedPatchUnseats()
    ensures var c := Chart(map[0 := Seat(None, true, Some(0)), 1 := Seat(Some(0), false, Some(1)),
         2 := Seat(Some(0), false, None)],
                           3, {0, 1}, {0, 1}, 2, None);
            var r := PatchSeat(c, 2, Patch(None, Some(Some(1)), true));
            r.reply == OtpRefused && c.seats[1].occupant == Some(1) && r.chart.seats[1].occupant.None?
  {
    var seats: Seats := map[0 := Seat(None, true, Some(0)), 1 := Seat(Some(0), false, Some(1)),
        2 := Seat(Some(0), false, None)];
    assert IsRootSeat(seats, 0);
    assert RootSeat(seats) == Some(0);
  }
}
