/**
  The compact tree layout of the scoped canvas: leaves take consecutive columns from a
  shared cursor and each parent is centred over its children.
*/
module OrgLayout {
  import opened Wrappers
  import opened Links

  const COL_W := 240.0
  const LEVEL_H := 150.0
  const X0 := 80.0
  const Y0 := 60.0

  datatype Point = Point(x: real, y: real)

  /** The seats of a list that hang under `parent`, in list order. */
  function Kids(nodes: seq<nat>, links: Links, parent: Option<nat>): (kids: seq<nat>)
    ensures forall y :: y in kids <==> y in nodes && y in links && links[y] == parent
    ensures (forall i, j :: 0 <= i < j < |nodes| ==> nodes[i] != nodes[j]) ==>
              forall i, j :: 0 <= i < j < |kids| ==> kids[i] != kids[j]
  {
    if nodes == [] then []
    else if nodes[0] in links && links[nodes[0]] == parent then
      assert forall y :: y in nodes <==> y == nodes[0] || y in nodes[1..];
      [nodes[0]] + Kids(nodes[1..], links, parent)
    else
      assert forall y :: y in nodes <==> y == nodes[0] || y in nodes[1..];
      Kids(nodes[1..], links, parent)
  }

  ghost function Subtree(links: Links, x: nat): set<nat> {
    set y | y in links && AtOrAbove(links, x, y)
  }

  // ------------------------------------------------------------ subtree facts

  lemma {:induction false} KidBelow(links: Links, x: nat, kid: nat)
    requires Acyclic(links) && x in links && kid in links && links[kid] == Some(x)
    ensures Subtree(links, kid) < Subtree(links, x) && x !in Subtree(links, kid)
  {
    AboveStep(links, x, kid);
    AboveStep(links, x, x);
    AboveStep(links, kid, x);
    if Above(links, kid, x) { AboveTransitive(links, x, kid, x); }
    forall y | y in Subtree(links, kid) ensures y in Subtree(links, x) {
      AboveStep(links, kid, y);
      AboveStep(links, x, y);
      if Above(links, kid, y) { AboveTransitive(links, x, kid, y); }
    }
    assert x in Subtree(links, x);
  }

  lemma {:induction false} SiblingsDisjoint(links: Links, a: nat, b: nat)
    requires Acyclic(links) && a in links && b in links && a != b
    requires links[a] == links[b] && (links[a].Some? ==> links[a].value in links)
    ensures Subtree(links, a) !! Subtree(links, b)
  {
    forall y | y in Subtree(links, a) && y in Subtree(links, b) ensures false {
      AboveComparable(links, a, b, y);
      AboveStep(links, a, b);
      AboveStep(links, b, a);
      if links[a].Some? {
        var p := links[a].value;
        AboveStep(links, p, a);
        AboveStep(links, p, b);
        AboveStep(links, p, p);
        if Above(links, a, b) { AboveTransitive(links, a, p, a) by { assert AtOrAbove(links, a, p); } }
        if Above(links, b, a) { AboveTransitive(links, b, p, b) by { assert AtOrAbove(links, b, p); } }
      }
    }
  }

  /** Whatever is below `x` is at or below one of its children. */
  lemma {:induction false} BelowSomeKid(links: Links, x: nat, y: nat) returns (kid: nat)
    requires y in links && AtOrAbove(links, x, y) && y != x
    ensures kid in links && links[kid] == Some(x) && AtOrAbove(links, kid, y)
  {
    var k: nat :| Up(links, y, k) == Some(x);
    kid := Up(links, y, k - 1).value;
  }

  /** Whatever is in an acyclic set hangs under one of its tops. */
  lemma {:induction false} UnderSomeTop(links: Links, y: nat) returns (top: nat)
    requires Acyclic(links) && y in links
    requires forall x, p :: x in links && links[x] == Some(p) ==> p in links
    ensures top in links && links[top].None? && y in Subtree(links, top)
    decreases Level(links, y)
  {
    AboveStep(links, y, y);
    if links[y].None? {
      top := y;
    } else {
      LevelStep(links, y);
      top := UnderSomeTop(links, links[y].value);
      AboveStep(links, top, y);
    }
  }

  lemma {:induction false} DeeperBelow(links: Links, x: nat, y: nat)
    requires Acyclic(links) && x in links && y in Subtree(links, x) && y != x
    ensures Level(links, x) < Level(links, y)
    decreases Level(links, y)
  {
    AboveStep(links, x, y);
    LevelStep(links, y);
    var p := links[y].value;
    AboveStep(links, x, p);
    if p != x { assert p in links; DeeperBelow(links, x, p); }
  }

  // ----------------------------------------------------------------- the plan

  type Places = map<nat, Point>

  function Gap(a: real, b: real): real {
    if a < b then b - a else a - b
  }

  /** Two seats of one level are at least a column apart. */
  ghost predicate Apart(links: Links, pos: Places, seats: set<nat>) {
    forall y, z :: y in seats && z in seats && y in pos && z in pos && y != z && Level(links, y) == Level(links, z)
      ==> Gap(pos[y].x, pos[z].x) >= COL_W
  }

  ghost predicate Within(pos: Places, seats: set<nat>, lo: nat, hi: nat) {
    forall y :: y in seats && y in pos ==> lo as real * COL_W <= pos[y].x <= (hi - 1) as real * COL_W
  }

  /** All children are placed, `a` leftmost and `b` rightmost. */
  ghost predicate Outermost(links: Links, pos: Places, y: nat, a: nat, b: nat) {
    && a in links && b in links && links[a] == Some(y) && links[b] == Some(y) && a in pos && b in pos
    && forall k :: k in links && links[k] == Some(y) ==> k in pos && pos[a].x <= pos[k].x <= pos[b].x
  }

  /** `y` sits half-way between its children `a` and `b`, and all its children lie between those two. */
  ghost predicate Midway(links: Links, pos: Places, y: nat, a: nat, b: nat) {
    Outermost(links, pos, y, a, b) && y in pos && pos[y].x == (pos[a].x + pos[b].x) / 2.0
  }

  ghost predicate HasKid(links: Links, y: nat) {
    exists k :: k in links && links[k] == Some(y)
  }

  ghost predicate Centred(links: Links, pos: Places, y: nat) {
    HasKid(links, y) ==> exists a, b :: Midway(links, pos, y, a, b)
  }

  ghost predicate Tidy(links: Links, pos: Places, seats: set<nat>) {
    && seats <= pos.Keys
    && Apart(links, pos, seats)
    && (forall y :: y in seats ==> pos[y].y == Level(links, y) as real * LEVEL_H)
    && (forall y :: y in seats ==> Centred(links, pos, y))
  }

  /** Seats placed later, to the right of everything before. */
  lemma {:induction false} Beside(links: Links, pos: Places, left: set<nat>, right: set<nat>, lo: nat, mid: nat,
                                  hi: nat)
    requires Tidy(links, pos, left) && Tidy(links, pos, right)
    requires Within(pos, left, lo, mid) && Within(pos, right, mid, hi) && lo <= mid <= hi
    ensures Tidy(links, pos, left + right)
    ensures Within(pos, left + right, lo, hi)
  {}

  lemma {:induction false} CentredStays(links: Links, before: Places, after: Places, y: nat)
    requires Centred(links, before, y)
    requires forall y :: y in before ==> y in after && after[y] == before[y]
    ensures Centred(links, after, y)
  {
    if HasKid(links, y) {
      var a, b :| Midway(links, before, y, a, b);
      assert Midway(links, after, y, a, b);
    }
  }

  /** Placing more seats leaves a finished subtree tidy. */
  lemma {:induction false} TidyStays(links: Links, before: Places, after: Places, seats: set<nat>)
    requires Tidy(links, before, seats)
    requires forall y :: y in before ==> y in after && after[y] == before[y]
    ensures Tidy(links, after, seats)
  {
    hide Centred, Level;
    forall y | y in seats ensures Centred(links, after, y) { CentredStays(links, before, after, y); }
  }

  /** A parent placed over its finished children; nothing else of its level is below it. */
  lemma {:induction false} Crown(links: Links, pos: Places, nid: nat, x: real, below: set<nat>, lo: nat, hi: nat)
    requires Acyclic(links) && nid in links && below == Subtree(links, nid) - {nid}
    requires Tidy(links, pos, below) && Within(pos, below, lo, hi) && nid !in pos
    requires lo as real * COL_W <= x <= (hi - 1) as real * COL_W
    requires var pos' := pos[nid := Point(x, Level(links, nid) as real * LEVEL_H)];
             Centred(links, pos', nid)
    ensures var pos' := pos[nid := Point(x, Level(links, nid) as real * LEVEL_H)];
            Tidy(links, pos', Subtree(links, nid)) && Within(pos', Subtree(links, nid), lo, hi)
  {
    var pos' := pos[nid := Point(x, Level(links, nid) as real * LEVEL_H)];
    AboveStep(links, nid, nid);
    TidyStays(links, pos, pos', below);
    forall y | y in below ensures Level(links, nid) < Level(links, y) { DeeperBelow(links, nid, y); }
    hide Centred, Level, Acyclic, AtOrAbove;
    assert Subtree(links, nid) == below + {nid};
  }

  /** The subtrees of several seats together. */
  ghost function Family(links: Links, kids: seq<nat>): set<nat> {
    if kids == [] then {} else Family(links, kids[..|kids| - 1]) + Subtree(links, kids[|kids| - 1])
  }

  lemma {:induction false} FamilyMember(links: Links, kids: seq<nat>, y: nat)
    ensures y in Family(links, kids) <==> exists k :: k in kids && y in Subtree(links, k)
  {
    if kids != [] {
      var rest, last := kids[..|kids| - 1], kids[|kids| - 1];
      assert kids == rest + [last];
      FamilyMember(links, rest, y);
    }
  }

  lemma {:induction false} SubtreeOfKids(links: Links, nodes: seq<nat>, x: nat)
    requires Acyclic(links) && x in links && forall y :: y in nodes <==> y in links
    ensures Subtree(links, x) == {x} + Family(links, Kids(nodes, links, Some(x)))
    ensures x !in Family(links, Kids(nodes, links, Some(x)))
  {
    var kids := Kids(nodes, links, Some(x));
    AboveStep(links, x, x);
    forall y ensures y in Subtree(links, x) && y != x <==> y in Family(links, kids) {
      FamilyMember(links, kids, y);
      if y in Subtree(links, x) && y != x {
        var k := BelowSomeKid(links, x, y);
        assert k in kids && y in Subtree(links, k);
      }
      if k :| k in kids && y in Subtree(links, k) { KidBelow(links, x, k); }
    }
  }

  lemma {:induction false} NothingPlaced(links: Links, pos: Places, lo: nat, hi: nat)
    ensures Family(links, []) == {} && Tidy(links, pos, {}) && Within(pos, {}, lo, hi)
  {}

  /** One more finished subtree to the right of the earlier ones. */
  lemma {:induction false} JoinKid(links: Links, before: Places, after: Places, kids: seq<nat>, i: nat,
                                   parent: Option<nat>, lo: nat, mid: nat, hi: nat)
    requires Acyclic(links) && i < |kids|
    requires forall i, j :: 0 <= i < j < |kids| ==> kids[i] != kids[j]
    requires forall k :: k in kids ==> k in links && links[k] == parent
    requires parent.Some? ==> parent.value in links
    requires Tidy(links, before, Family(links, kids[..i])) && Within(before, Family(links, kids[..i]), lo, mid)
    requires forall y :: y in before ==> y in after && after[y] == before[y]
    requires Tidy(links, after, Subtree(links, kids[i])) && Within(after, Subtree(links, kids[i]), mid, hi)
    requires lo <= mid <= hi
    ensures Tidy(links, after, Family(links, kids[..i + 1])) && Within(after, Family(links, kids[..i + 1]), lo, hi)
  {
    hide Tidy, Acyclic, Family, Subtree;
    NextKidApart(links, kids, parent, i);
    TidyStays(links, before, after, Family(links, kids[..i]));
    TidyPlaced(links, before, Family(links, kids[..i]));
    Beside(links, after, Family(links, kids[..i]), Subtree(links, kids[i]), lo, mid, hi);
  }

  lemma {:induction false} TidyPlaced(links: Links, pos: Places, seats: set<nat>)
    requires Tidy(links, pos, seats)
    ensures seats <= pos.Keys
  {}

  lemma {:induction false} LeafCentred(links: Links, nodes: seq<nat>, pos: Places, y: nat)
    requires Kids(nodes, links, Some(y)) == [] && forall x :: x in nodes <==> x in links
    ensures Centred(links, pos, y)
  {
    assert forall k :: k !in Kids(nodes, links, Some(y));
  }

  lemma {:induction false} FamilyHolds(links: Links, kids: seq<nat>, i: nat)
    requires i < |kids|
    ensures Subtree(links, kids[i]) <= Family(links, kids)
  {
    forall y | y in Subtree(links, kids[i]) ensures y in Family(links, kids) {
      FamilyMember(links, kids, y);
      assert kids[i] in kids;
    }
  }

  lemma {:induction false} NextKidApart(links: Links, kids: seq<nat>, parent: Option<nat>, i: nat)
    requires Acyclic(links) && i < |kids|
    requires forall i, j :: 0 <= i < j < |kids| ==> kids[i] != kids[j]
    requires forall k :: k in kids ==> k in links && links[k] == parent
    requires parent.Some? ==> parent.value in links
    ensures Family(links, kids[..i]) !! Subtree(links, kids[i])
    ensures Family(links, kids[..i + 1]) == Family(links, kids[..i]) + Subtree(links, kids[i])
  {
    assert kids[..i + 1][..i] == kids[..i];
    forall y | y in Family(links, kids[..i]) ensures y !in Subtree(links, kids[i]) {
      FamilyMember(links, kids[..i], y);
      var k :| k in kids[..i] && y in Subtree(links, k);
      assert kids[i] in kids;
      SiblingsDisjoint(links, k, kids[i]);
    }
  }

  /** `lo` and `hi` are the columns of the outermost children of `y`. */
  ghost predicate Extremes(links: Links, pos: Places, y: nat, lo: real, hi: real) {
    exists a, b :: Outermost(links, pos, y, a, b) && pos[a].x == lo && pos[b].x == hi
  }

  /** `a` and `b` are the outermost of the first `i` children. */
  ghost predicate Spanned(pos: Places, kids: seq<nat>, i: nat, a: nat, b: nat, lo: real, hi: real)
    requires i <= |kids|
  {
    && (i > 0 ==> a in kids && b in kids && a in pos && b in pos && pos[a].x == lo && pos[b].x == hi)
    && forall j :: 0 <= j < i ==> kids[j] in pos && lo <= pos[kids[j]].x <= hi
  }

  lemma {:induction false} SpannedAll(links: Links, nodes: seq<nat>, pos: Places, y: nat, a: nat, b: nat, lo: real,
                                      hi: real)
    requires var kids := Kids(nodes, links, Some(y)); kids != [] && Spanned(pos, kids, |kids|, a, b, lo, hi)
    requires forall x :: x in nodes <==> x in links
    ensures Extremes(links, pos, y, lo, hi)
  {
    var kids := Kids(nodes, links, Some(y));
    forall k | k in links && links[k] == Some(y) ensures k in pos && pos[a].x <= pos[k].x <= pos[b].x {
      assert k in kids;
    }
    assert Outermost(links, pos, y, a, b);
  }

  lemma {:induction false} CentreOver(links: Links, pos: Places, y: nat, lo: real, hi: real, level: real)
    requires Extremes(links, pos, y, lo, hi) && y !in pos
    ensures Centred(links, pos[y := Point((lo + hi) / 2.0, level)], y)
  {
    var a, b :| Outermost(links, pos, y, a, b) && pos[a].x == lo && pos[b].x == hi;
    assert Midway(links, pos[y := Point((lo + hi) / 2.0, level)], y, a, b);
  }

  function Listed(parents: Links): Links {
    map x | x in parents :: if parents[x].Some? && parents[x].value in parents then parents[x] else None
  }

  lemma {:induction false} ListedAcyclic(parents: Links)
    requires Acyclic(parents)
    ensures Acyclic(Listed(parents))
  {
    var rank := AcyclicRanked(parents);
    RankedAcyclic(Listed(parents), rank);
  }

  function Shifted(p: Point): Point {
    Point(X0 + p.x, Y0 + p.y)
  }

  /**
    No two seats touch: distinct positions, one row for each level, a column between seats of a row,
    parents centred.
  */
  ghost predicate Drawn(links: Links, out: Places) {
    && out.Keys == links.Keys
    && Apart(links, out, links.Keys)
    && (forall y :: y in links ==> out[y].y == Y0 + Level(links, y) as real * LEVEL_H)
    && (forall y :: y in links ==> Centred(links, out, y))
    && (forall y, z :: y in links && z in links && y != z ==> out[y] != out[z])
  }

  lemma {:induction false} ShiftCentred(links: Links, pos: Places, out: Places, y: nat)
    requires Centred(links, pos, y) && pos.Keys == out.Keys
    requires forall y :: y in pos ==> out[y] == Shifted(pos[y])
    ensures Centred(links, out, y)
  {
    if HasKid(links, y) {
      var a, b :| Midway(links, pos, y, a, b);
      assert Midway(links, out, y, a, b);
    }
  }

  lemma {:induction false} ShiftDrawn(links: Links, pos: Places, out: Places)
    requires Tidy(links, pos, links.Keys) && pos.Keys == out.Keys == links.Keys
    requires forall y :: y in pos ==> out[y] == Shifted(pos[y])
    ensures Drawn(links, out)
  {
    hide Centred, Level;
    forall y | y in links ensures Centred(links, out, y) { ShiftCentred(links, pos, out, y); }
    forall y, z | y in links && z in links && y != z ensures out[y] != out[z] {
      if Level(links, y) == Level(links, z) { assert Gap(pos[y].x, pos[z].x) >= COL_W; }
    }
  }

  // ------------------------------------------------------- leaves and siblings

  ghost predicate ListedBefore(nodes: seq<nat>, u: nat, v: nat) {
    exists i, j :: 0 <= i < j < |nodes| && nodes[i] == u && nodes[j] == v
  }

  /** Two children of one parent, or two tops, `u` listed before `v`. */
  ghost predicate Siblings(nodes: seq<nat>, links: Links, u: nat, v: nat) {
    && u in links && v in links && u != v && links[u] == links[v] && (links[u].Some? ==> links[u].value in links)
    && ListedBefore(nodes, u, v)
  }

  /** The branch of the earlier of two siblings lies a column or more to the left of the other's. */
  ghost predicate InListOrder(nodes: seq<nat>, links: Links, pos: Places, seats: set<nat>) {
    forall u, v, y, z ::
      (Siblings(nodes, links, u, v) && y in Subtree(links, u) && z in Subtree(links, v)
       && y in seats && z in seats && y in pos && z in pos) ==> pos[y].x + COL_W <= pos[z].x
  }

  ghost predicate LeafAt(links: Links, pos: Places, seats: set<nat>, origin: real, column: nat, y: nat) {
    y in seats && y in pos && !HasKid(links, y) && pos[y].x == origin + column as real * COL_W
  }

  ghost predicate Filled(links: Links, pos: Places, seats: set<nat>, origin: real, column: nat) {
    exists y :: LeafAt(links, pos, seats, origin, column, y)
  }

  /** Each leaf has one of the columns from `lo` to before `hi`, and each of these is that of exactly one leaf. */
  ghost predicate Columns(links: Links, pos: Places, seats: set<nat>, origin: real, lo: nat, hi: nat) {
    && (forall y :: y in seats && y in pos && !HasKid(links, y) ==>
          exists c: nat :: lo <= c < hi && LeafAt(links, pos, seats, origin, c, y))
    && (forall c: nat :: lo <= c < hi ==> Filled(links, pos, seats, origin, c))
    && (forall c: nat, y, z :: LeafAt(links, pos, seats, origin, c, y) && LeafAt(links, pos, seats, origin, c, z)
          ==> y == z)
  }

  ghost predicate Flowing(nodes: seq<nat>, links: Links, pos: Places, seats: set<nat>, lo: nat, hi: nat) {
    Columns(links, pos, seats, 0.0, lo, hi) && InListOrder(nodes, links, pos, seats)
  }

  lemma {:induction false} ListedLater(nodes: seq<nat>, u: nat, v: nat)
    requires nodes != [] && (ListedBefore(nodes[1..], u, v) || (u == nodes[0] && v in nodes[1..]))
    ensures ListedBefore(nodes, u, v)
  {
    if ListedBefore(nodes[1..], u, v) {
      var i, j :| 0 <= i < j < |nodes[1..]| && nodes[1..][i] == u && nodes[1..][j] == v;
      assert nodes[i + 1] == u && nodes[j + 1] == v;
    } else {
      var j :| 0 <= j < |nodes[1..]| && nodes[1..][j] == v;
      assert nodes[0] == u && nodes[j + 1] == v;
    }
  }

  lemma {:induction false} ListedStep(nodes: seq<nat>, first: seq<nat>, rest: seq<nat>, i: nat, j: nat)
    requires nodes != [] && first <= nodes[..1] && i < j < |first| + |rest| && forall y :: y in rest ==> y in nodes[1..]
    requires i >= |first| ==> ListedBefore(nodes[1..], rest[i - |first|], rest[j - |first|])
    ensures ListedBefore(nodes, (first + rest)[i], (first + rest)[j])
  {
    hide ListedBefore;
    if i < |first| { assert rest[j - |first|] in rest; }
    ListedLater(nodes, (first + rest)[i], (first + rest)[j]);
  }

  function FirstKid(nodes: seq<nat>, links: Links, parent: Option<nat>): seq<nat> {
    if nodes != [] && nodes[0] in links && links[nodes[0]] == parent then [nodes[0]] else []
  }

  lemma {:induction false} KidsUnfold(nodes: seq<nat>, links: Links, parent: Option<nat>)
    requires Kids(nodes, links, parent) != []
    ensures nodes != [] && FirstKid(nodes, links, parent) <= nodes[..1]
    ensures Kids(nodes, links, parent) == FirstKid(nodes, links, parent) + Kids(nodes[1..], links, parent)
    ensures forall y :: y in Kids(nodes[1..], links, parent) ==> y in nodes[1..]
  {}

  lemma {:induction false} KidsInOrder(nodes: seq<nat>, links: Links, parent: Option<nat>, i: nat, j: nat)
    requires i < j < |Kids(nodes, links, parent)|
    ensures var kids := Kids(nodes, links, parent); ListedBefore(nodes, kids[i], kids[j])
  {
    hide *;
    KidsUnfold(nodes, links, parent);
    var first, rest := FirstKid(nodes, links, parent), Kids(nodes[1..], links, parent);
    if i >= |first| { KidsInOrder(nodes[1..], links, parent, i - |first|, j - |first|); }
    ListedStep(nodes, first, rest, i, j);
  }

  lemma {:induction false} KidsApart(nodes: seq<nat>, links: Links, parent: Option<nat>, i: nat, j: nat)
    requires i < j < |Kids(nodes, links, parent)|
    requires forall i, j :: 0 <= i < j < |nodes| ==> nodes[i] != nodes[j]
    ensures var kids := Kids(nodes, links, parent); !Siblings(nodes, links, kids[j], kids[i])
  {
    KidsInOrder(nodes, links, parent, i, j);
  }

  /** Two seats part at one pair of siblings only. */
  lemma {:induction false} PartOnce(links: Links, a: nat, b: nat, u: nat, v: nat, y: nat, z: nat)
    requires Acyclic(links) && a in links && b in links && u in links && v in links && a != b && u != v
    requires links[a] == links[b] && (links[a].Some? ==> links[a].value in links)
    requires links[u] == links[v] && (links[u].Some? ==> links[u].value in links)
    requires y in Subtree(links, u) && y in Subtree(links, a) && z in Subtree(links, v) && z in Subtree(links, b)
    ensures u == a && v == b
  {
    SiblingsDisjoint(links, a, b);
    SiblingsDisjoint(links, u, v);
    AboveComparable(links, u, a, y);
    if u != a {
      if AtOrAbove(links, a, u) { Astride(links, a, u, v, z); } else { Astride(links, u, a, b, z); }
    }
    AboveComparable(links, v, b, z);
    if v != b {
      if AtOrAbove(links, b, v) { Astride(links, b, v, u, y); } else { Astride(links, v, b, a, y); }
    }
  }

  /** Whoever is strictly above one of two siblings is above whatever is below the other. */
  lemma {:induction false} Astride(links: Links, a: nat, u: nat, v: nat, z: nat)
    requires u in links && v in links && links[u] == links[v] && (links[u].Some? ==> links[u].value in links)
    requires AtOrAbove(links, a, u) && a != u && z in Subtree(links, v)
    ensures z in Subtree(links, a)
  {
    AboveStep(links, a, u);
    AboveStep(links, a, v);
    AboveStep(links, a, z);
    AboveStep(links, v, z);
    if z != v { AboveTransitive(links, a, v, z); }
  }

  lemma {:induction false} KidsMeet(nodes: seq<nat>, links: Links, y: nat)
    requires forall x :: x in nodes <==> x in links
    ensures HasKid(links, y) <==> Kids(nodes, links, Some(y)) != []
  {
    var kids := Kids(nodes, links, Some(y));
    if kids != [] { assert kids[0] in kids; }
    if k :| k in links && links[k] == Some(y) { assert k in kids; }
  }

  lemma {:induction false} FlowNothing(nodes: seq<nat>, links: Links, pos: Places, lo: nat)
    ensures Flowing(nodes, links, pos, {}, lo, lo)
  {}

  lemma {:induction false} ColumnsJoin(links: Links, before: Places, after: Places, left: set<nat>, right: set<nat>,
                                       lo: nat, mid: nat, hi: nat)
    requires Columns(links, before, left, 0.0, lo, mid) && Columns(links, after, right, 0.0, mid, hi) && lo <= mid <= hi
    requires Within(before, left, lo, mid) && Within(after, right, mid, hi) && left <= before.Keys
    requires forall y :: y in before ==> y in after && after[y] == before[y]
    ensures Columns(links, after, left + right, 0.0, lo, hi)
  {
    hide HasKid;
    var both := left + right;
    forall c: nat, y | LeafAt(links, after, both, 0.0, c, y)
      ensures LeafAt(links, before, left, 0.0, c, y) || LeafAt(links, after, right, 0.0, c, y)
      ensures LeafAt(links, before, left, 0.0, c, y) ==> c < mid
      ensures LeafAt(links, after, right, 0.0, c, y) ==> mid <= c
    {}
    forall y | y in both && y in after && !HasKid(links, y)
      ensures exists c: nat :: lo <= c < hi && LeafAt(links, after, both, 0.0, c, y)
    {
      if y in left {
        var c: nat :| lo <= c < mid && LeafAt(links, before, left, 0.0, c, y);
        assert LeafAt(links, after, both, 0.0, c, y);
      } else {
        var c: nat :| mid <= c < hi && LeafAt(links, after, right, 0.0, c, y);
        assert LeafAt(links, after, both, 0.0, c, y);
      }
    }
    forall c: nat | lo <= c < hi ensures Filled(links, after, both, 0.0, c) {
      assert c < mid ==> Filled(links, before, left, 0.0, c);
      if c < mid {
        var y :| LeafAt(links, before, left, 0.0, c, y);
        assert LeafAt(links, after, both, 0.0, c, y);
      } else {
        assert Filled(links, after, right, 0.0, c);
        var y :| LeafAt(links, after, right, 0.0, c, y);
        assert LeafAt(links, after, both, 0.0, c, y);
      }
    }
  }

  lemma {:induction false} OrderJoin(nodes: seq<nat>, links: Links, before: Places, after: Places, kids: seq<nat>,
                                     i: nat, parent: Option<nat>, lo: nat, mid: nat, hi: nat)
    requires Acyclic(links) && kids == Kids(nodes, links, parent) && i < |kids|
    requires forall i, j :: 0 <= i < j < |nodes| ==> nodes[i] != nodes[j]
    requires parent.Some? ==> parent.value in links
    requires var left, right := Family(links, kids[..i]), Subtree(links, kids[i]);
             && InListOrder(nodes, links, before, left) && InListOrder(nodes, links, after, right)
             && Within(before, left, lo, mid) && Within(after, right, mid, hi) && left <= before.Keys
    requires forall y :: y in before ==> y in after && after[y] == before[y]
    ensures InListOrder(nodes, links, after, Family(links, kids[..i]) + Subtree(links, kids[i]))
  {
    var left, right := Family(links, kids[..i]), Subtree(links, kids[i]);
    hide Siblings, Acyclic, Kids, Subtree, Family;
    forall u, v, y, z | Siblings(nodes, links, u, v) && y in Subtree(links, u) && z in Subtree(links, v)
      && y in left + right && z in left + right && y in after && z in after
      ensures after[y].x + COL_W <= after[z].x
    {
      if y in right && y !in left && z in left { NeverBack(nodes, links, kids, i, parent, u, v, y, z); }
    }
  }

  lemma {:induction false} NeverBack(nodes: seq<nat>, links: Links, kids: seq<nat>, i: nat, parent: Option<nat>,
                                     u: nat, v: nat, y: nat, z: nat)
    requires Acyclic(links) && kids == Kids(nodes, links, parent) && i < |kids|
    requires forall i, j :: 0 <= i < j < |nodes| ==> nodes[i] != nodes[j]
    requires parent.Some? ==> parent.value in links
    requires y in Subtree(links, kids[i]) && z in Family(links, kids[..i])
    requires y in Subtree(links, u) && z in Subtree(links, v)
    ensures !Siblings(nodes, links, u, v)
  {
    FamilyMember(links, kids[..i], z);
    var k :| k in kids[..i] && z in Subtree(links, k);
    var j :| 0 <= j < i && kids[..i][j] == k;
    assert kids[i] in kids && kids[j] in kids;
    KidsApart(nodes, links, parent, j, i);
    hide Kids, Acyclic, Subtree;
    if Siblings(nodes, links, u, v) { PartOnce(links, kids[i], k, u, v, y, z); }
  }

  /** One more finished branch to the right of the earlier ones. */
  lemma {:induction false} FlowJoin(nodes: seq<nat>, links: Links, before: Places, after: Places, kids: seq<nat>,
                                    i: nat, parent: Option<nat>, lo: nat, mid: nat, hi: nat)
    requires Acyclic(links) && kids == Kids(nodes, links, parent) && i < |kids|
    requires forall i, j :: 0 <= i < j < |nodes| ==> nodes[i] != nodes[j]
    requires parent.Some? ==> parent.value in links
    requires var left, right := Family(links, kids[..i]), Subtree(links, kids[i]);
             && Flowing(nodes, links, before, left, lo, mid) && Flowing(nodes, links, after, right, mid, hi)
             && Within(before, left, lo, mid) && Within(after, right, mid, hi) && left <= before.Keys
    requires forall y :: y in before ==> y in after && after[y] == before[y]
    requires lo <= mid <= hi
    ensures Flowing(nodes, links, after, Family(links, kids[..i + 1]), lo, hi)
  {
    assert kids[..i + 1][..i] == kids[..i];
    assert Family(links, kids[..i + 1]) == Family(links, kids[..i]) + Subtree(links, kids[i]);
    hide Columns, InListOrder, Acyclic, Kids, Family, Subtree, Within;
    ColumnsJoin(links, before, after, Family(links, kids[..i]), Subtree(links, kids[i]), lo, mid, hi);
    OrderJoin(nodes, links, before, after, kids, i, parent, lo, mid, hi);
  }

  /** A seat placed over its finished children, or a leaf in the next column. */
  lemma {:induction false} FlowCrown(nodes: seq<nat>, links: Links, pos: Places, nid: nat, at: Point, below: set<nat>,
                                     lo: nat, mid: nat, hi: nat)
    requires Acyclic(links) && nid in links && below == Subtree(links, nid) - {nid} && nid !in pos
    requires below <= pos.Keys && Flowing(nodes, links, pos, below, lo, mid)
    requires if HasKid(links, nid) then mid == hi
             else below == {} && lo == mid && hi == mid + 1 && at.x == mid as real * COL_W
    ensures Flowing(nodes, links, pos[nid := at], Subtree(links, nid), lo, hi)
  {
    AboveStep(links, nid, nid);
    ColumnsCrown(links, pos, nid, at, below, lo, mid, hi);
    assert below + {nid} == Subtree(links, nid);
    hide Columns, Acyclic, HasKid, Siblings, AtOrAbove;
    forall u, v, y, z | Siblings(nodes, links, u, v) && y in Subtree(links, u) && z in Subtree(links, v)
      && y in Subtree(links, nid) && z in Subtree(links, nid)
      ensures y in below && z in below
    {
      if y == nid || z == nid { NeverOver(nodes, links, nid, u, v, y, z); }
    }
  }

  lemma {:induction false} ColumnsCrown(links: Links, pos: Places, nid: nat, at: Point, below: set<nat>, lo: nat,
                                        mid: nat, hi: nat)
    requires nid !in pos && below <= pos.Keys && Columns(links, pos, below, 0.0, lo, mid)
    requires if HasKid(links, nid) then mid == hi
             else below == {} && lo == mid && hi == mid + 1 && at.x == mid as real * COL_W
    ensures Columns(links, pos[nid := at], below + {nid}, 0.0, lo, hi)
  {
    var pos', seats := pos[nid := at], below + {nid};
    if HasKid(links, nid) {
      hide HasKid;
      forall c: nat, y ensures LeafAt(links, pos', seats, 0.0, c, y) <==> LeafAt(links, pos, below, 0.0, c, y) {}
      forall c: nat | lo <= c < hi ensures Filled(links, pos', seats, 0.0, c) {
        assert Filled(links, pos, below, 0.0, c);
        var y :| LeafAt(links, pos, below, 0.0, c, y);
        assert LeafAt(links, pos', seats, 0.0, c, y);
      }
    } else {
      hide HasKid;
      assert LeafAt(links, pos', seats, 0.0, mid, nid);
    }
  }

  lemma {:induction false} NeverOver(nodes: seq<nat>, links: Links, nid: nat, u: nat, v: nat, y: nat, z: nat)
    requires Acyclic(links) && Siblings(nodes, links, u, v) && y in Subtree(links, u) && z in Subtree(links, v)
    requires y in Subtree(links, nid) && z in Subtree(links, nid)
    ensures y != nid && z != nid
  {
    SiblingsDisjoint(links, u, v);
    if y == nid { Downward(links, u, nid, z); }
    if z == nid { Downward(links, v, nid, y); }
  }

  lemma {:induction false} Downward(links: Links, a: nat, b: nat, c: nat)
    requires AtOrAbove(links, a, b) && c in Subtree(links, b)
    ensures c in Subtree(links, a)
  {
    AboveStep(links, b, c);
    AboveStep(links, a, c);
    if c != b { AboveTransitive(links, a, b, c); }
  }

  /** The leaves fill the first columns one each, and siblings stand in the order of the list. */
  ghost predicate InSequence(nodes: seq<nat>, links: Links, out: Places, width: nat) {
    Columns(links, out, out.Keys, X0, 0, width) && InListOrder(nodes, links, out, out.Keys)
  }

  lemma {:induction false} ShiftSequence(nodes: seq<nat>, links: Links, pos: Places, out: Places, width: nat)
    requires Flowing(nodes, links, pos, links.Keys, 0, width) && pos.Keys == out.Keys == links.Keys
    requires forall y :: y in pos ==> out[y] == Shifted(pos[y])
    ensures InSequence(nodes, links, out, width)
  {
    hide HasKid, Siblings, Subtree;
    forall c: nat, y ensures LeafAt(links, out, out.Keys, X0, c, y) <==> LeafAt(links, pos, links.Keys, 0.0, c, y) {}
    forall c: nat | c < width ensures Filled(links, out, out.Keys, X0, c) {
      assert Filled(links, pos, links.Keys, 0.0, c);
      var y :| LeafAt(links, pos, links.Keys, 0.0, c, y);
      assert LeafAt(links, out, out.Keys, X0, c, y);
    }
  }

  lemma {:induction false} TopsHoldAll(links: Links, nodes: seq<nat>)
    requires Acyclic(links) && forall y :: y in nodes <==> y in links
    requires forall x, p :: x in links && links[x] == Some(p) ==> p in links
    ensures Family(links, Kids(nodes, links, None)) == links.Keys
  {
    var tops := Kids(nodes, links, None);
    forall y ensures y in Family(links, tops) <==> y in links {
      FamilyMember(links, tops, y);
      if y in links {
        var top := UnderSomeTop(links, y);
        assert top in tops;
      }
    }
  }

  class Layout {
    const nodes: seq<nat>
    const links: Links
    var pos: Places
    var cursor: nat

    /** A parent outside the list is ignored: its children are tops. */
    constructor (nodes: seq<nat>, parents: Links)
      ensures this.nodes == nodes && links == Listed(parents) && pos == map[] && cursor == 0
    {
      this.nodes, this.links, pos, cursor := nodes, Listed(parents), map[], 0;
    }

    ghost predicate Proper() {
      && Acyclic(links)
      && (forall x :: x in nodes <==> x in links)
      && (forall i, j :: 0 <= i < j < |nodes| ==> nodes[i] != nodes[j])
      && (forall x, p :: x in links && links[x] == Some(p) ==> p in links)
    }

    /** place(): the subtree of `nid`, from the current column on. */
    method Place(nid: nat, depth: nat) returns (x: real)
      requires Proper() && nid in links && depth == Level(links, nid)
      requires pos.Keys !! Subtree(links, nid)
      modifies this
      ensures cursor > old(cursor)
      ensures pos.Keys == old(pos).Keys + Subtree(links, nid)
      ensures forall y :: y in old(pos) ==> pos[y] == old(pos)[y]
      ensures Tidy(links, pos, Subtree(links, nid))
      ensures Within(pos, Subtree(links, nid), old(cursor), cursor)
      ensures Flowing(nodes, links, pos, Subtree(links, nid), old(cursor), cursor)
      ensures nid in pos && pos[nid].x == x
      ensures old(cursor) as real * COL_W <= x <= (cursor - 1) as real * COL_W
      decreases Subtree(links, nid)
    {
      hide Tidy, Within, Family, Subtree, Acyclic, Level, Centred, Extremes, Flowing, HasKid, Kids;
      var kids := Kids(nodes, links, Some(nid));
      SubtreeOfKids(links, nodes, nid);
      KidsMeet(nodes, links, nid);
      NothingPlaced(links, pos, cursor, cursor + 1);
      FlowNothing(nodes, links, pos, cursor);
      if kids == [] {
        x := cursor as real * COL_W;
        cursor := cursor + 1;
        LeafCentred(links, nodes, pos[nid := Point(x, depth as real * LEVEL_H)], nid);
      } else {
        var lo, hi := PlaceKids(nid, kids, depth + 1);
        x := (lo + hi) / 2.0;
        CentreOver(links, pos, nid, lo, hi, depth as real * LEVEL_H);
      }
      Crown(links, pos, nid, x, Family(links, kids), old(cursor), cursor);
      FlowCrown(nodes, links, pos, nid, Point(x, depth as real * LEVEL_H), Family(links, kids), old(cursor),
                if kids == [] then old(cursor) else cursor, cursor);
      pos := pos[nid := Point(x, depth as real * LEVEL_H)];
    }

    /** The children one after the other, with the extremes of their columns. */
    method PlaceKids(nid: nat, kids: seq<nat>, depth: nat) returns (lo: real, hi: real)
      requires Proper() && nid in links && depth == Level(links, nid) + 1
      requires kids == Kids(nodes, links, Some(nid)) && kids != []
      requires pos.Keys !! Family(links, kids)
      modifies this
      ensures cursor > old(cursor)
      ensures pos.Keys == old(pos).Keys + Family(links, kids)
      ensures forall y :: y in old(pos) ==> pos[y] == old(pos)[y]
      ensures Tidy(links, pos, Family(links, kids))
      ensures Within(pos, Family(links, kids), old(cursor), cursor)
      ensures Flowing(nodes, links, pos, Family(links, kids), old(cursor), cursor)
      ensures Extremes(links, pos, nid, lo, hi)
      ensures old(cursor) as real * COL_W <= lo <= hi <= (cursor - 1) as real * COL_W
      decreases Subtree(links, nid), 0
    {
      hide Tidy, Within, Family, Subtree, Acyclic, Level, Extremes, Kids, Flowing;
      ghost var before := pos;
      NothingPlaced(links, pos, cursor, cursor);
      FlowNothing(nodes, links, pos, cursor);
      assert kids[..0] == [];
      ghost var a, b := kids[0], kids[0];
      lo, hi := 0.0, 0.0;
      var i := 0;
      while i < |kids|
        invariant i <= |kids| && cursor >= old(cursor) + i
        invariant pos.Keys == before.Keys + Family(links, kids[..i])
        invariant forall y :: y in before ==> pos[y] == before[y]
        invariant Tidy(links, pos, Family(links, kids[..i]))
        invariant Within(pos, Family(links, kids[..i]), old(cursor), cursor)
        invariant Flowing(nodes, links, pos, Family(links, kids[..i]), old(cursor), cursor)
        invariant Spanned(pos, kids, i, a, b, lo, hi)
        invariant i > 0 ==> old(cursor) as real * COL_W <= lo <= hi <= (cursor - 1) as real * COL_W
      {
        ghost var done := pos;
        ghost var mid := cursor;
        var kid := kids[i];
        assert kid in kids;
        NextKidApart(links, kids, Some(nid), i);
        FamilyHolds(links, kids, i);
        KidBelow(links, nid, kid);
        LevelStep(links, kid);
        assert pos.Keys !! Subtree(links, kid);
        var x := Place(kid, depth);
        JoinKid(links, done, pos, kids, i, Some(nid), old(cursor), mid, cursor);
        FlowJoin(nodes, links, done, pos, kids, i, Some(nid), old(cursor), mid, cursor);
        if i == 0 || x < lo { lo, a := x, kid; }
        if i == 0 || x > hi { hi, b := x, kid; }
        i := i + 1;
      }
      assert kids[..i] == kids;
      SpannedAll(links, nodes, pos, nid, a, b, lo, hi);
    }

    method Relayout() returns (out: Places)
      requires Proper() && pos == map[] && cursor == 0
      modifies this
      ensures Drawn(links, out) && InSequence(nodes, links, out, cursor)
    {
      hide Tidy, Within, Family, Subtree, Acyclic, Level, Flowing, Drawn, InSequence;
      var roots := Kids(nodes, links, None);
      NothingPlaced(links, pos, 0, 0);
      FlowNothing(nodes, links, pos, 0);
      assert roots[..0] == [];
      var i := 0;
      while i < |roots|
        invariant i <= |roots|
        invariant pos.Keys == Family(links, roots[..i])
        invariant Tidy(links, pos, Family(links, roots[..i]))
        invariant Within(pos, Family(links, roots[..i]), 0, cursor)
        invariant Flowing(nodes, links, pos, Family(links, roots[..i]), 0, cursor)
      {
        ghost var done := pos;
        ghost var mid := cursor;
        assert roots[i] in roots;
        NextKidApart(links, roots, None, i);
        LevelStep(links, roots[i]);
        var _ := Place(roots[i], 0);
        JoinKid(links, done, pos, roots, i, None, 0, mid, cursor);
        FlowJoin(nodes, links, done, pos, roots, i, None, 0, mid, cursor);
        i := i + 1;
      }
      assert roots[..i] == roots;
      TopsHoldAll(links, nodes);
      out := map y | y in pos :: Shifted(pos[y]);
      ShiftDrawn(links, pos, out);
      ShiftSequence(nodes, links, pos, out, cursor);
    }
  }

  /** The layout of any list of distinct seats of an acyclic canvas. */
  method RelayoutCompact(nodes: seq<nat>, parents: Links) returns (out: Places)
    requires Acyclic(parents)
    requires forall x :: x in nodes <==> x in parents
    requires forall i, j :: 0 <= i < j < |nodes| ==> nodes[i] != nodes[j]
    ensures Drawn(Listed(parents), out)
    ensures exists width: nat :: InSequence(nodes, Listed(parents), out, width)
  {
    hide Drawn, InSequence;
    ListedAcyclic(parents);
    var layout := new Layout(nodes, parents);
    out := layout.Relayout();
  }
}
