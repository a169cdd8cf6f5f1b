/** The repair of the legacy reporting lines: every supervisor must strictly outrank the report. */
module OrgRepair {
  import opened Wrappers
  import opened Links

  /** A smaller rank is a higher position. */
  datatype Person = Person(rank: nat, active: bool, company: nat, reportsTo: Option<nat>)

  type People = map<nat, Person>

  predicate InCompany(people: People, company: nat, u: nat) {
    u in people && people[u].company == company
  }

  /** May supervise a member of `company` of rank `rank`, other than `self`. */
  predicate Eligible(people: People, company: nat, rank: nat, self: nat, v: nat) {
    InCompany(people, company, v) && v != self && people[v].active && people[v].rank < rank
  }

  ghost predicate EligibleAt(people: People, line: Links, start: nat, company: nat, rank: nat, self: nat, k: nat) {
    var v := Up(line, start, k);
    v.Some? && Eligible(people, company, rank, self, v.value)
  }

  /** `s` is the first eligible person at or above `start` on the line; None when there is none. */
  ghost predicate Nearest(people: People, line: Links, start: nat, company: nat, rank: nat, self: nat, s: Option<nat>) {
    match s
    case Some(v) =>
      exists k: nat :: && Up(line, start, k) == s && EligibleAt(people, line, start, company, rank, self, k)
                       && forall j: nat :: j < k ==> !EligibleAt(people, line, start, company, rank, self, j)
    case None => forall k: nat :: !EligibleAt(people, line, start, company, rank, self, k)
  }

  /** find_valid_supervisor: up the line until somebody suitable, the end or a repetition. */
  method FindValidSupervisor(people: People, line: Links, start: nat, company: nat, rank: nat, self: nat)
    returns (s: Option<nat>)
    ensures Nearest(people, line, start, company, rank, self, s)
  {
    var seen: set<nat> := {};
    var cur := Some(start);
    ghost var k: nat := 0;
    while cur.Some? && cur.value !in seen && cur.value in line
      invariant cur == Up(line, start, k)
      invariant Trodden(line, seen, cur) && (k == 0 ==> seen == {}) && (k > 0 ==> start in seen)
      invariant forall y :: y in seen ==> !Eligible(people, company, rank, self, y)
      invariant forall j: nat :: j < k ==> !EligibleAt(people, line, start, company, rank, self, j)
      decreases line.Keys - seen
    {
      seen := seen + {cur.value};
      if Eligible(people, company, rank, self, cur.value) {
        assert EligibleAt(people, line, start, company, rank, self, k);
        return cur;
      }
      cur := line[cur.value];
      k := k + 1;
    }
    if cur.Some? && cur.value !in seen && Eligible(people, company, rank, self, cur.value) {
      assert EligibleAt(people, line, start, company, rank, self, k);
      return cur;
    }
    s := None;
    forall m: nat ensures !EligibleAt(people, line, start, company, rank, self, m) {
      TrailStays(line, start, seen, cur, m);
    }
  }

  /** An edge within the company that does not point strictly upward. */
  predicate Violates(people: People, company: nat, u: nat) {
    u in people &&
    var p := people[u].reportsTo;
    p.Some? && InCompany(people, company, p.value) && !(people[p.value].rank < people[u].rank)
  }

  /** The invariant of the chart: within the company, every supervisor strictly outranks the report. */
  predicate Upward(people: People, company: nat) {
    forall u :: u in people && people[u].company == company ==> !Violates(people, company, u)
  }

  /** The top-ranked active member: none is active, or nobody active outranks `top`. */
  ghost predicate IsTop(people: People, company: nat, top: Option<nat>) {
    match top
    case None => forall u :: InCompany(people, company, u) ==> !people[u].active
    case Some(t) => InCompany(people, company, t) && people[t].active
                    && forall u :: InCompany(people, company, u) && people[u].active ==>
                         people[t].rank <= people[u].rank
  }

  /**
    The supervisor a violating member is given: the nearest eligible superior, else the top if
    eligible, else nobody.
  */
  ghost predicate Repair(people: People, company: nat, line: Links, top: Option<nat>, u: nat, edge: Option<nat>)
    requires Violates(people, company, u)
  {
    || (edge.Some? && Nearest(people, line, people[u].reportsTo.value, company, people[u].rank, u, edge))
    || (Nearest(people, line, people[u].reportsTo.value, company, people[u].rank, u, None)
        && edge == if top.Some? && top.value != u && top.value in people && people[top.value].rank < people[u].rank
                   then top else None)
  }

  /** The members of a company, as the query lists them. */
  ghost predicate Lists(people: People, company: nat, users: seq<nat>) {
    && (forall i :: 0 <= i < |users| ==> InCompany(people, company, users[i]))
    && (forall u :: InCompany(people, company, u) ==> u in users)
  }

  ghost predicate AllRepaired(people: People, after: People, company: nat, users: seq<nat>, lines: seq<Links>,
                              top: Option<nat>, n: nat)
    requires n <= |users| == |lines| && after.Keys == people.Keys
  {
    forall i :: 0 <= i < n && Violates(people, company, users[i]) ==>
      Repair(people, company, lines[i], top, users[i], after[users[i]].reportsTo)
  }

  method TopRanked(people: People, company: nat, users: seq<nat>) returns (top: Option<nat>)
    requires Lists(people, company, users)
    ensures IsTop(people, company, top)
    ensures top.Some? ==>
              exists i :: && 0 <= i < |users| && users[i] == top.value
                          && forall j :: 0 <= j < i && people[users[j]].active ==>
                               people[top.value].rank < people[users[j]].rank
  {
    top := None;
    ghost var at := 0;
    for i := 0 to |users|
      invariant top.None? ==> forall j :: 0 <= j < i ==> !people[users[j]].active
      invariant top.Some? ==> top.value in users && people[top.value].active
      invariant top.Some? ==> 0 <= at < i && users[at] == top.value
      invariant top.Some? ==> forall j :: 0 <= j < at && people[users[j]].active ==>
          people[top.value].rank < people[users[j]].rank
      invariant top.Some? ==> forall j :: 0 <= j < i && people[users[j]].active ==>
          people[top.value].rank <= people[users[j]].rank
    {
      var u := users[i];
      if people[u].active && (top.None? || people[u].rank < people[top.value].rank) {
        top, at := Some(u), i;
      }
    }
  }

  method NewSupervisor(people: People, company: nat, line: Links, top: Option<nat>, u: nat) returns (edge: Option<nat>)
    requires Violates(people, company, u) && IsTop(people, company, top)
    ensures Repair(people, company, line, top, u, edge)
  {
    hide Nearest;
    edge := FindValidSupervisor(people, line, people[u].reportsTo.value, company, people[u].rank, u);
    if edge.None? && top.Some? && top.value != u && people[top.value].rank < people[u].rank {
      edge := top;
    }
  }

  /** Only reporting edges change, and only those of violating members among the first `n`. */
  ghost predicate OnlyEdges(people: People, after: People, company: nat, users: seq<nat>, n: nat)
    requires n <= |users| && after.Keys == people.Keys
  {
    && (forall u :: u in people ==> after[u] == people[u].(reportsTo := after[u].reportsTo))
    && (forall u :: u in people && (u !in users[..n] || !Violates(people, company, u)) ==> after[u] == people[u])
  }

  lemma {:induction false} OnlyEdgesStart(people: People, company: nat, users: seq<nat>)
    ensures OnlyEdges(people, people, company, users, 0)
  {}

  lemma {:induction false} OnlyEdgesNext(people: People, after: People, company: nat, users: seq<nat>, i: nat)
    requires i < |users| && after.Keys == people.Keys && users[i] in people
    requires forall i, j :: 0 <= i < j < |users| ==> users[i] != users[j]
    requires OnlyEdges(people, after, company, users, i)
    ensures after[users[i]] == people[users[i]]
    ensures OnlyEdges(people, after, company, users, i + 1)
    ensures Violates(people, company, users[i]) ==> forall edge ::
              OnlyEdges(people, after[users[i] := after[users[i]].(reportsTo := edge)], company, users, i + 1)
  {
    assert users[i] !in users[..i];
    assert users[..i + 1] == users[..i] + [users[i]];
  }

  lemma {:induction false} OnlyEdgesAll(people: People, after: People, company: nat, users: seq<nat>)
    requires Lists(people, company, users) && after.Keys == people.Keys
    requires OnlyEdges(people, after, company, users, |users|)
    ensures forall u :: u in people ==> after[u] == people[u].(reportsTo := after[u].reportsTo)
    ensures forall u :: u in people && !(InCompany(people, company, u) && Violates(people, company, u)) ==>
         after[u] == people[u]
  {
    assert users[..|users|] == users;
  }

  lemma {:induction false} AllRepairedStart(people: People, company: nat, users: seq<nat>, lines: seq<Links>,
                                            top: Option<nat>)
    requires |lines| == |users|
    ensures AllRepaired(people, people, company, users, lines, top, 0)
  {}

  lemma {:induction false} AllRepairedSame(people: People, after: People, company: nat, users: seq<nat>,
                                           lines: seq<Links>, top: Option<nat>, i: nat)
    requires i < |users| == |lines| && after.Keys == people.Keys
    requires AllRepaired(people, after, company, users, lines, top, i) && !Violates(people, company, users[i])
    ensures AllRepaired(people, after, company, users, lines, top, i + 1)
  {
    hide Repair;
  }

  lemma {:induction false} AllRepairedNext(people: People, after: People, company: nat, users: seq<nat>,
                                           lines: seq<Links>, top: Option<nat>, i: nat, edge: Option<nat>)
    requires i < |users| == |lines| && after.Keys == people.Keys
    requires forall i, j :: 0 <= i < j < |users| ==> users[i] != users[j]
    requires AllRepaired(people, after, company, users, lines, top, i)
    requires Violates(people, company, users[i]) && Repair(people, company, lines[i], top, users[i], edge)
    ensures var next := after[users[i] := after[users[i]].(reportsTo := edge)];
            AllRepaired(people, next, company, users, lines, top, i + 1)
  {
    hide Repair;
  }

  ghost function Changed(people: People, after: People): set<nat>
    requires after.Keys == people.Keys
  {
    set u | u in people && after[u] != people[u]
  }

  lemma {:induction false} ChangedNext(people: People, after: People, u: nat, edge: Option<nat>)
    requires after.Keys == people.Keys && u in people && after[u] == people[u] && edge != people[u].reportsTo
    ensures |Changed(people, after[u := after[u].(reportsTo := edge)])| == |Changed(people, after)| + 1
  {
    var next := after[u := after[u].(reportsTo := edge)];
    assert Changed(people, next) == Changed(people, after) + {u} && u !in Changed(people, after);
  }

  lemma {:induction false} NoneChanged(people: People)
    ensures Changed(people, people) == {}
  {}

  /**
    enforce_org_consistency. The walk of each member may read the lines as they are, as they
    were when the pass began, or a mixture (`lines[i]` is what the walk for `users[i]` reads).
  */
  method EnforceOrgConsistency(people: People, company: nat, users: seq<nat>, lines: seq<Links>)
    returns (after: People, fixed: nat)
    requires Lists(people, company, users)
    requires forall i, j :: 0 <= i < j < |users| ==> users[i] != users[j]
    requires |lines| == |users|
    ensures after.Keys == people.Keys
    ensures forall u :: u in people ==> after[u] == people[u].(reportsTo := after[u].reportsTo)
    ensures forall u :: u in people && !(InCompany(people, company, u) && Violates(people, company, u)) ==>
         after[u] == people[u]
    ensures exists top :: IsTop(people, company, top) && AllRepaired(people, after, company, users, lines, top, |users|)
    ensures Upward(after, company)
    ensures Upward(people, company) ==> after == people && fixed == 0
    ensures fixed == |Changed(people, after)|
  {
    NoneChanged(people);
    hide Nearest, IsTop, Upward, Repair, AllRepaired, OnlyEdges, Changed;
    var top := TopRanked(people, company, users);
    AllRepairedStart(people, company, users, lines, top);
    OnlyEdgesStart(people, company, users);
    after, fixed := people, 0;
    for i := 0 to |users|
      invariant after.Keys == people.Keys && OnlyEdges(people, after, company, users, i)
      invariant AllRepaired(people, after, company, users, lines, top, i)
      invariant fixed == |Changed(people, after)|
    {
      var u := users[i];
      OnlyEdgesNext(people, after, company, users, i);
      var parent := after[u].reportsTo;
      if parent.Some? && InCompany(people, company, parent.value)
         && !(people[parent.value].rank < people[u].rank && parent.value != u) {
        assert Violates(people, company, u);
        var edge := NewSupervisor(people, company, lines[i], top, u);
        AllRepairedNext(people, after, company, users, lines, top, i, edge);
        if edge != parent {
          ChangedNext(people, after, u, edge);
          after := after[u := after[u].(reportsTo := edge)];
          fixed := fixed + 1;
        } else {
          assert after == after[u := after[u].(reportsTo := edge)];
        }
      } else {
        AllRepairedSame(people, after, company, users, lines, top, i);
      }
    }
    OnlyEdgesAll(people, after, company, users);
    RepairedUpward(people, after, company, users, lines, top);
  }

  lemma {:induction false} RepairedUpward(people: People, after: People, company: nat, users: seq<nat>,
                                          lines: seq<Links>, top: Option<nat>)
    requires Lists(people, company, users) && |lines| == |users|
    requires after.Keys == people.Keys && IsTop(people, company, top)
    requires forall u :: u in people ==> after[u] == people[u].(reportsTo := after[u].reportsTo)
    requires forall u :: u in people && !(InCompany(people, company, u) && Violates(people, company, u)) ==>
        after[u] == people[u]
    requires AllRepaired(people, after, company, users, lines, top, |users|)
    ensures Upward(after, company)
    ensures Upward(people, company) ==> after == people
  {
    hide Nearest, IsTop, Repair;
    forall u | u in after && after[u].company == company ensures !Violates(after, company, u) {
      assert InCompany(people, company, u);
      var i :| 0 <= i < |users| && users[i] == u;
      if Violates(people, company, u) { RepairUpward(people, company, lines[i], top, u, after[u].reportsTo); }
    }
  }

  lemma {:induction false} RepairUpward(people: People, company: nat, line: Links, top: Option<nat>, u: nat,
                                        edge: Option<nat>)
    requires Violates(people, company, u) && IsTop(people, company, top)
    requires Repair(people, company, line, top, u, edge)
    ensures edge.Some? ==> edge.value in people && people[edge.value].rank < people[u].rank
  {
    if edge.Some? && Nearest(people, line, people[u].reportsTo.value, company, people[u].rank, u, edge) {
      var k: nat :| Up(line, people[u].reportsTo.value, k) == edge
                    && EligibleAt(people, line, people[u].reportsTo.value, company, people[u].rank, u, k);
    }
  }

  /** The reporting lines inside one company. */
  function CompanyLines(people: People, company: nat): Links {
    map u | u in people && people[u].company == company ::
      if people[u].reportsTo.Some? && InCompany(people, company, people[u].reportsTo.value)
      then people[u].reportsTo else None
  }

  /** Lines that all point upward have no cycle. */
  lemma {:induction false} UpwardAcyclic(people: People, company: nat)
    requires Upward(people, company)
    ensures Acyclic(CompanyLines(people, company))
  {
    var lines := CompanyLines(people, company);
    RankedAcyclic(lines, map u | u in lines :: people[u].rank);
  }
}
