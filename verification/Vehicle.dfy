/**
  The catalogue database of a vehicle: all its frames, one after the other, in one pair of
  tables. The audit reads the whole of it; a reader asks for the rows of one frame.
*/
module Vehicle {
  import opened Wrappers
  import opened Parts
  import opened Catalogue
  import opened CataloguePaths

  /**
    The builds of a vehicle's frames, as build_vehicle_db runs them; the frame is the primary key of
    the staged ones.
  */
  ghost predicate AllGenuine(car: string, bs: seq<Build>) {
    forall k :: 0 <= k < |bs| ==> Genuine(bs[k]) && bs[k].root == Child(car, bs[k].frame.code)
  }

  ghost predicate CodesDiffer(bs: seq<Build>) {
    forall i, j :: 0 <= i < j < |bs| ==> bs[i].frame.code != bs[j].frame.code
  }

  /** Everything in `nodes` once the frames are built ... */
  ghost function DbRows(bs: seq<Build>): seq<NodeRow> {
    if bs == [] then [] else FrameRows(bs[0]) + DbRows(bs[1..])
  }

  /** ... and in `groups`. */
  ghost function DbGroups(bs: seq<Build>): seq<Group> {
    if bs == [] then [] else FrameGroups(bs[0]) + DbGroups(bs[1..])
  }

  /** Group ids run on from one frame to the next. */
  ghost predicate Running(bs: seq<Build>, next: nat) {
    bs == [] || (bs[0].next == next && Running(bs[1..], next + |FrameGroups(bs[0])|))
  }

  ghost predicate VehicleBuild(car: string, bs: seq<Build>, next: nat) {
    AllGenuine(car, bs) && CodesDiffer(bs) && Running(bs, next)
  }

  lemma {:induction false} IsVehicle(car: string, bs: seq<Build>, next: nat)
    ensures VehicleBuild(car, bs, next) <==> AllGenuine(car, bs) && CodesDiffer(bs) && Running(bs, next)
  {}

  /** Frames as staged: each tree is in order, and the frame is the primary key. */
  ghost predicate AllStaged(frames: seq<Frame>) {
    && (forall i :: 0 <= i < |frames| ==> Staged(frames[i]))
    && (forall i, j :: 0 <= i < j < |frames| ==> frames[i].code != frames[j].code)
  }

  /** `bs` builds the first frames. */
  ghost predicate Covers(bs: seq<Build>, frames: seq<Frame>) {
    |bs| <= |frames| && forall k :: 0 <= k < |bs| ==> bs[k].frame == frames[k]
  }

  lemma {:induction false} GenuineAppend(car: string, bs: seq<Build>, b: Build)
    requires AllGenuine(car, bs) && Genuine(b) && b.root == Child(car, b.frame.code)
    ensures AllGenuine(car, bs + [b])
  {
    hide Genuine;
  }

  lemma {:induction false} CodesAppend(bs: seq<Build>, b: Build, frames: seq<Frame>)
    requires AllStaged(frames) && Covers(bs, frames) && |bs| < |frames| && b.frame == frames[|bs|]
    ensures CodesDiffer(bs + [b]) && Covers(bs + [b], frames)
  {
    hide Staged;
    var all := bs + [b];
    forall i, j | 0 <= i < j < |all| ensures all[i].frame.code != all[j].frame.code {
      assert all[i].frame == frames[i] && all[j].frame == frames[j];
    }
  }

  /** One more frame adds its rows and groups behind the others'. */
  lemma {:induction false} RowsAppend(bs: seq<Build>, b: Build)
    ensures DbRows(bs + [b]) == DbRows(bs) + FrameRows(b)
    ensures DbGroups(bs + [b]) == DbGroups(bs) + FrameGroups(b)
    decreases |bs|
  {
    hide FrameRows, FrameGroups;
    var all := bs + [b];
    if bs == [] {
      assert all == [b] && all[1..] == [];
    } else {
      assert all[1..] == bs[1..] + [b] && all[0] == bs[0];
      RowsAppend(bs[1..], b);
      assert FrameRows(bs[0]) + (DbRows(bs[1..]) + FrameRows(b)) == DbRows(bs) + FrameRows(b);
      assert FrameGroups(bs[0]) + (DbGroups(bs[1..]) + FrameGroups(b)) == DbGroups(bs) + FrameGroups(b);
    }
  }

  lemma {:induction false} RunningAppend(bs: seq<Build>, b: Build, next: nat)
    requires Running(bs, next) && b.next == next + |DbGroups(bs)|
    ensures Running(bs + [b], next)
    decreases |bs|
  {
    hide FrameGroups;
    var all := bs + [b];
    if bs == [] {
      assert all == [b] && all[1..] == [];
    } else {
      assert all[1..] == bs[1..] + [b] && all[0] == bs[0];
      RunningAppend(bs[1..], b, next + |FrameGroups(bs[0])|);
    }
  }

  /** The build of the next frame goes with those before it. */
  lemma {:induction false} NextFrame(car: string, bs: seq<Build>, frames: seq<Frame>, next: nat) returns (b: Build)
    requires AllStaged(frames) && VehicleBuild(car, bs, next) && Covers(bs, frames) && |bs| < |frames|
    ensures Staged(frames[|bs|])
    ensures b == BuildOf(frames[|bs|], Child(car, frames[|bs|].code), next + |DbGroups(bs)|)
    ensures VehicleBuild(car, bs + [b], next) && Covers(bs + [b], frames)
    ensures DbRows(bs + [b]) == DbRows(bs) + FrameRows(b)
    ensures DbGroups(bs + [b]) == DbGroups(bs) + FrameGroups(b)
  {
    b := FrameBuild(frames, |bs|, Child(car, frames[|bs|].code), next + |DbGroups(bs)|);
    IsVehicle(car, bs, next);
    hide *;
    GenuineAppend(car, bs, b);
    CodesAppend(bs, b, frames);
    RowsAppend(bs, b);
    RunningAppend(bs, b, next);
    IsVehicle(car, bs + [b], next);
  }

  lemma {:induction false} FrameBuild(frames: seq<Frame>, k: nat, root: string, next: nat) returns (b: Build)
    requires AllStaged(frames) && k < |frames|
    ensures Staged(frames[k]) && b == BuildOf(frames[k], root, next)
    ensures Genuine(b) && b.frame == frames[k] && b.root == root && b.next == next
  {
    hide Staged, KeptIds, Emission;
    b := BuildOf(frames[k], root, next);
  }

  /** Whatever frames are left can be added in the same way. */
  lemma {:induction false} Complete(car: string, bs: seq<Build>, frames: seq<Frame>, next: nat)
    returns (all: seq<Build>)
    requires AllStaged(frames) && VehicleBuild(car, bs, next) && Covers(bs, frames)
    ensures VehicleBuild(car, all, next) && Covers(all, frames) && |all| == |frames|
    ensures DbRows(bs) <= DbRows(all)
    decreases |frames| - |bs|
  {
    if |bs| == |frames| {
      all := bs;
    } else {
      hide *;
      var b := NextFrame(car, bs, frames, next);
      IsVehicle(car, bs, next);
      IsVehicle(car, bs + [b], next);
      all := Complete(car, bs + [b], frames, next);
      IsVehicle(car, all, next);
    }
  }

  // ------------------------------------------------------------- frame by frame

  /** The rows of one frame, in their order. */
  function RowsOf(rows: seq<NodeRow>, code: string): seq<NodeRow> {
    if rows == [] then [] else (if rows[0].frame == code then [rows[0]] else []) + RowsOf(rows[1..], code)
  }

  function GroupsOf(groups: seq<Group>, code: string): seq<Group> {
    if groups == [] then [] else (if groups[0].frame == code then [groups[0]] else []) + GroupsOf(groups[1..], code)
  }

  lemma {:induction false} RowsOfAppend(a: seq<NodeRow>, b: seq<NodeRow>, code: string)
    ensures RowsOf(a + b, code) == RowsOf(a, code) + RowsOf(b, code)
  {
    if a == [] {
      assert a + b == b;
    } else {
      var first := if a[0].frame == code then [a[0]] else [];
      assert (a + b)[0] == a[0] && (a + b)[1..] == a[1..] + b;
      RowsOfAppend(a[1..], b, code);
      assert RowsOf(a + b, code) == first + (RowsOf(a[1..], code) + RowsOf(b, code));
    }
  }

  lemma {:induction false} GroupsOfAppend(a: seq<Group>, b: seq<Group>, code: string)
    ensures GroupsOf(a + b, code) == GroupsOf(a, code) + GroupsOf(b, code)
  {
    if a == [] {
      assert a + b == b;
    } else {
      var first := if a[0].frame == code then [a[0]] else [];
      assert (a + b)[0] == a[0] && (a + b)[1..] == a[1..] + b;
      GroupsOfAppend(a[1..], b, code);
      assert GroupsOf(a + b, code) == first + (GroupsOf(a[1..], code) + GroupsOf(b, code));
    }
  }

  lemma {:induction false} RowsOfOne(rows: seq<NodeRow>, own: string, code: string)
    requires forall i :: 0 <= i < |rows| ==> rows[i].frame == own
    ensures RowsOf(rows, code) == if own == code then rows else []
  {
    if rows != [] {
      assert forall i :: 0 <= i < |rows[1..]| ==> rows[1..][i] == rows[i + 1];
      RowsOfOne(rows[1..], own, code);
      assert rows == [rows[0]] + rows[1..];
    }
  }

  lemma {:induction false} GroupsOfOne(groups: seq<Group>, own: string, code: string)
    requires forall i :: 0 <= i < |groups| ==> groups[i].frame == own
    ensures GroupsOf(groups, code) == if own == code then groups else []
  {
    if groups != [] {
      assert forall i :: 0 <= i < |groups[1..]| ==> groups[1..][i] == groups[i + 1];
      GroupsOfOne(groups[1..], own, code);
      assert groups == [groups[0]] + groups[1..];
    }
  }

  lemma {:induction false} RowsOfMember(rows: seq<NodeRow>, code: string, r: NodeRow)
    ensures r in RowsOf(rows, code) <==> r in rows && r.frame == code
  {
    if rows != [] {
      assert rows == [rows[0]] + rows[1..];
      RowsOfMember(rows[1..], code, r);
    }
  }

  /** The rows of one build carry its frame. */
  lemma {:induction false} FrameColumn(b: Build, i: nat)
    requires i < |FrameRows(b)|
    ensures FrameRows(b)[i].frame == b.frame.code
  {
    hide Groups, PathOf, TitleOf;
    FrameRowsShape(b, i);
  }

  lemma {:induction false} GroupColumn(b: Build, j: nat)
    requires j < |FrameGroups(b)|
    ensures FrameGroups(b)[j].frame == b.frame.code && FrameGroups(b)[j].id == b.next + j
  {
    hide Groups, PathOf;
    var i := GroupRowsFrom(b, |b.paths|, j);
  }

  lemma {:induction false} BuildParts(b: Build, code: string)
    ensures RowsOf(FrameRows(b), code) == if b.frame.code == code then FrameRows(b) else []
    ensures GroupsOf(FrameGroups(b), code) == if b.frame.code == code then FrameGroups(b) else []
  {
    hide FrameRows, FrameGroups;
    forall i | 0 <= i < |FrameRows(b)| ensures FrameRows(b)[i].frame == b.frame.code { FrameColumn(b, i); }
    forall j | 0 <= j < |FrameGroups(b)| ensures FrameGroups(b)[j].frame == b.frame.code { GroupColumn(b, j); }
    RowsOfOne(FrameRows(b), b.frame.code, code);
    GroupsOfOne(FrameGroups(b), b.frame.code, code);
  }

  /** What the first frame contributes to the answer for one frame. */
  lemma {:induction false} FrameStep(bs: seq<Build>, code: string)
    requires bs != []
    ensures RowsOf(DbRows(bs), code)
         == (if bs[0].frame.code == code then FrameRows(bs[0]) else []) + RowsOf(DbRows(bs[1..]), code)
    ensures GroupsOf(DbGroups(bs), code)
         == (if bs[0].frame.code == code then FrameGroups(bs[0]) else []) + GroupsOf(DbGroups(bs[1..]), code)
  {
    hide RowsOf, GroupsOf, FrameRows, FrameGroups;
    BuildParts(bs[0], code);
    RowsOfAppend(FrameRows(bs[0]), DbRows(bs[1..]), code);
    GroupsOfAppend(FrameGroups(bs[0]), DbGroups(bs[1..]), code);
  }

  lemma {:induction false} NoSuchFrame(bs: seq<Build>, code: string)
    requires forall i :: 0 <= i < |bs| ==> bs[i].frame.code != code
    ensures RowsOf(DbRows(bs), code) == [] && GroupsOf(DbGroups(bs), code) == []
    decreases |bs|
  {
    if bs != [] {
      hide RowsOf, GroupsOf, DbRows, DbGroups;
      FrameStep(bs, code);
      NoSuchFrame(bs[1..], code);
    }
  }

  /** Asked for one frame, the database of the vehicle answers with exactly what that frame's build inserted. */
  lemma {:induction false} FrameOfDb(bs: seq<Build>, k: nat)
    requires CodesDiffer(bs) && k < |bs|
    ensures RowsOf(DbRows(bs), bs[k].frame.code) == FrameRows(bs[k])
    ensures GroupsOf(DbGroups(bs), bs[k].frame.code) == FrameGroups(bs[k])
    decreases k
  {
    hide RowsOf, GroupsOf, DbRows, DbGroups, FrameRows, FrameGroups;
    FrameStep(bs, bs[k].frame.code);
    if k == 0 {
      NoSuchFrame(bs[1..], bs[0].frame.code);
    } else {
      FrameOfDb(bs[1..], k - 1);
    }
  }

  lemma {:induction false} DbRowFrom(bs: seq<Build>, r: NodeRow) returns (k: nat)
    requires r in DbRows(bs)
    ensures k < |bs| && r in FrameRows(bs[k])
    decreases |bs|
  {
    hide FrameRows;
    if r in FrameRows(bs[0]) {
      k := 0;
    } else {
      var j := DbRowFrom(bs[1..], r);
      k := j + 1;
    }
  }

  lemma {:induction false} DbGroupFrom(bs: seq<Build>, g: Group) returns (k: nat)
    requires g in DbGroups(bs)
    ensures k < |bs| && g in FrameGroups(bs[k])
    decreases |bs|
  {
    hide FrameGroups;
    if g in FrameGroups(bs[0]) {
      k := 0;
    } else {
      var j := DbGroupFrom(bs[1..], g);
      k := j + 1;
    }
  }

  lemma {:induction false} FrameInDb(bs: seq<Build>, k: nat, r: NodeRow)
    requires k < |bs| && r in FrameRows(bs[k])
    ensures r in DbRows(bs)
    decreases k
  {
    hide FrameRows;
    if k > 0 { FrameInDb(bs[1..], k - 1, r); }
  }

  // ---------------------------------------------------------------- the audit

  /** A row is named after its parent, a root after the car. */
  ghost predicate NamedAfterParent(car: string, r: NodeRow) {
    r.id == Child(if r.parentId.Some? then r.parentId.value else car, r.title)
  }

  lemma {:induction false} FrameRowsNamed(b: Build, car: string, i: nat)
    requires b.root == Child(car, b.frame.code) && i < |FrameRows(b)|
    ensures NamedAfterParent(car, FrameRows(b)[i])
  {
    hide Genuine, FrameRows, Groups, TitleOf;
    FrameRowsShape(b, i);
  }

  lemma {:induction false} DbRowsNamed(car: string, bs: seq<Build>, r: NodeRow)
    requires AllGenuine(car, bs) && r in DbRows(bs)
    ensures NamedAfterParent(car, r)
  {
    hide DbRows, FrameRows, NamedAfterParent, Genuine;
    var k := DbRowFrom(bs, r);
    var i :| 0 <= i < |FrameRows(bs[k])| && FrameRows(bs[k])[i] == r;
    FrameRowsNamed(bs[k], car, i);
  }

  lemma {:induction false} FolderKeeps(b: Build, r: NodeRow)
    requires Genuine(b) && r in FrameRows(b) && r.depth >= 1 && !r.leaf
    ensures HasChild(FrameRows(b), r)
  {
    hide FrameRows, Genuine;
    var i :| 0 <= i < |FrameRows(b)| && FrameRows(b)[i] == r;
    FolderAt(b, i);
  }

  lemma {:induction false} DbGroupsGood(bs: seq<Build>, g: Group)
    requires g in DbGroups(bs)
    ensures GoodGroup(g)
  {
    hide DbGroups, FrameGroups, GoodGroup;
    var k := DbGroupFrom(bs, g);
    var j :| 0 <= j < |FrameGroups(bs[k])| && FrameGroups(bs[k])[j] == g;
    GroupsGood(bs[k], j);
  }

  /** The database of a vehicle, once the primary key has let it through, passes the audit, whatever was staged. */
  lemma {:induction false} DbPassesAudit(car: string, bs: seq<Build>)
    requires AllGenuine(car, bs) && DistinctIds(DbRows(bs))
    ensures PassesAudit(DbRows(bs), DbGroups(bs))
  {
    hide DbRows, DbGroups, FrameRows, Genuine, GoodGroup;
    var rows := DbRows(bs);
    forall r | r in rows && r.depth >= 1 && !r.leaf ensures HasChild(rows, r) {
      var k := DbRowFrom(bs, r);
      FolderKeeps(bs[k], r);
      var c :| c in FrameRows(bs[k]) && c.parentId == Some(r.id);
      FrameInDb(bs, k, c);
    }
    forall g | g in DbGroups(bs) ensures GoodGroup(g) { DbGroupsGood(bs, g); }
    forall i, j | 0 <= i < j < |rows| ensures !SameSlot(rows[i], rows[j]) {
      DbRowsNamed(car, bs, rows[i]);
      DbRowsNamed(car, bs, rows[j]);
    }
  }

  /** Group ids run through the whole database without a gap, so none is used twice. */
  lemma {:induction false} GroupsNumbered(bs: seq<Build>, next: nat, j: nat)
    requires Running(bs, next) && j < |DbGroups(bs)|
    ensures DbGroups(bs)[j].id == next + j
    decreases |bs|
  {
    hide FrameGroups;
    if j < |FrameGroups(bs[0])| {
      GroupColumn(bs[0], j);
    } else {
      GroupsNumbered(bs[1..], next + |FrameGroups(bs[0])|, j - |FrameGroups(bs[0])|);
    }
  }

  /**
    In the database of the vehicle a servable leaf under the top of its frame has one node and one
    group, which name each other; no other row of any frame has a group.
  */
  lemma {:induction false} LeafPublishedOnceInDb(car: string, bs: seq<Build>, k: nat, t: nat)
    requires AllGenuine(car, bs) && CodesDiffer(bs) && k < |bs|
    ensures var fr := bs[k].frame;
            var rows, groups := RowsOf(DbRows(bs), fr.code), GroupsOf(DbGroups(bs), fr.code);
            && (forall i: nat, j: nat :: ShownAt(rows, t, i) && ShownAt(rows, t, j) ==> i == j)
            && (forall i: nat, j: nat :: GroupedAt(groups, t, i) && GroupedAt(groups, t, j) ==> i == j)
            && ((exists j: nat :: GroupedAt(groups, t, j)) <==> Servable(fr, t) && ReachesTop(fr, t))
            && (forall j: nat :: GroupedAt(groups, t, j) ==> groups[j].sections == KeptSections(fr.tree[t].sections))
            && (forall j: nat :: GroupedAt(groups, t, j) ==> exists r :: r in rows && Names(r, groups[j]))
  {
    FrameOfDb(bs, k);
    hide *;
    LeafPublishedOnce(bs[k], t);
  }

  // ------------------------------------------------------------------ the key

  /** The ways to the rows of a build; none when it inserts none. */
  ghost predicate IsWay(b: Build, way: seq<nat>) {
    AnyServable(b.frame) && (way == [] || way in b.paths)
  }

  lemma {:induction false} WayOf(b: Build, r: NodeRow) returns (way: seq<nat>)
    requires r in FrameRows(b)
    ensures IsWay(b, way) && r.id == b.root + Spelled(b, way)
  {
    var k :| 0 <= k < |FrameRows(b)| && FrameRows(b)[k] == r;
    RowId(b, k);
    way := PathAt(b, k);
    hide FrameRows, PathOf, Spelled;
    PathIsWay(b, way);
  }

  /** A path is the root and what is spelled on the way down. */
  lemma {:induction false} PathIsWay(b: Build, way: seq<nat>)
    ensures PathOf(b, way) == b.root + Spelled(b, way)
  {
    assert [] + way == way;
    PathSplit(b, [], way);
  }

  lemma {:induction false} RowOfWay(b: Build, way: seq<nat>) returns (r: NodeRow)
    requires Genuine(b) && IsWay(b, way)
    ensures r in FrameRows(b) && r.id == b.root + Spelled(b, way)
  {
    var k := 0;
    if way == [] {
      assert FrameRows(b)[0] == RootRow(b.root, b.frame.code);
    } else {
      k := RowOfPath(b, way);
    }
    hide FrameRows, Genuine, IsWay;
    PathIsWay(b, way);
    r := FrameRows(b)[k];
  }

  ghost predicate Apart(a: Build, b: Build) {
    forall r, s :: r in FrameRows(a) && s in FrameRows(b) ==> r.id != s.id
  }

  ghost predicate AllApart(bs: seq<Build>) {
    forall i, j :: 0 <= i < j < |bs| ==> Apart(bs[i], bs[j])
  }

  ghost predicate EachDistinct(bs: seq<Build>) {
    forall k :: 0 <= k < |bs| ==> DistinctIds(FrameRows(bs[k]))
  }

  /** Nothing spelled by a frame's code and a way in it is spelled by another's. */
  ghost predicate WaysApart(a: Build, b: Build) {
    forall p, q :: IsWay(a, p) && IsWay(b, q) ==> a.frame.code + Spelled(a, p) != b.frame.code + Spelled(b, q)
  }

  lemma {:induction false} ApartByWays(car: string, a: Build, b: Build)
    requires Genuine(a) && a.root == Child(car, a.frame.code)
    requires Genuine(b) && b.root == Child(car, b.frame.code)
    ensures Apart(a, b) <==> WaysApart(a, b)
  {
    hide Genuine, FrameRows, Spelled, IsWay;
    if WaysApart(a, b) {
      forall r, s | r in FrameRows(a) && s in FrameRows(b) ensures r.id != s.id {
        var p := WayOf(a, r);
        var q := WayOf(b, s);
        UnderCar(car, a.frame.code, Spelled(a, p), b.frame.code, Spelled(b, q));
      }
    }
    if Apart(a, b) {
      forall p, q | IsWay(a, p) && IsWay(b, q) ensures a.frame.code + Spelled(a, p) != b.frame.code + Spelled(b, q) {
        var r := RowOfWay(a, p);
        var s := RowOfWay(b, q);
        UnderCar(car, a.frame.code, Spelled(a, p), b.frame.code, Spelled(b, q));
      }
    }
  }

  lemma {:induction false} UnderCar(car: string, f: string, x: string, g: string, y: string)
    ensures Child(car, f) + x == Child(car, g) + y <==> f + x == g + y
  {
    var up := car + "/";
    assert Child(car, f) + x == up + (f + x) && Child(car, g) + y == up + (g + y);
    SameFront(up, f + x, g + y);
  }

  /** Frames of which neither code goes on with a slash after the other share no way. */
  lemma {:induction false} PlainCodesApart(a: Build, b: Build)
    requires a.frame.code != b.frame.code
    requires !Spills(a.frame.code, b.frame.code) && !Spills(b.frame.code, a.frame.code)
    ensures WaysApart(a, b)
  {
    hide IsWay, Spelled, Spills, SlashFirst;
    forall p, q | IsWay(a, p) && IsWay(b, q) ensures a.frame.code + Spelled(a, p) != b.frame.code + Spelled(b, q) {
      SpelledSlashFirst(a, p);
      SpelledSlashFirst(b, q);
      if a.frame.code + Spelled(a, p) == b.frame.code + Spelled(b, q) {
        OneSpills(a.frame.code, Spelled(a, p), b.frame.code, Spelled(b, q));
      }
    }
  }

  lemma {:induction false} DistinctJoin(a: seq<NodeRow>, b: seq<NodeRow>)
    ensures DistinctIds(a + b) <==> DistinctIds(a) && DistinctIds(b) && forall r, s :: r in a && s in b ==> r.id != s.id
  {
    var all := a + b;
    if DistinctIds(all) {
      forall i, j | 0 <= i < j < |a| ensures a[i].id != a[j].id { assert all[i] == a[i] && all[j] == a[j]; }
      forall i, j | 0 <= i < j < |b| ensures b[i].id != b[j].id { assert all[|a| + i] == b[i] && all[|a| + j] == b[j]; }
      forall r, s | r in a && s in b ensures r.id != s.id {
        var i :| 0 <= i < |a| && a[i] == r;
        var j :| 0 <= j < |b| && b[j] == s;
        assert all[i] == r && all[|a| + j] == s;
      }
    }
    if DistinctIds(a) && DistinctIds(b) && forall r, s :: r in a && s in b ==> r.id != s.id {
      forall i, j | 0 <= i < j < |all| ensures all[i].id != all[j].id {
        if i < |a| <= j { assert all[i] in a && all[j] in b; }
      }
    }
  }

  lemma {:induction false} FirstApart(bs: seq<Build>)
    requires bs != []
    ensures (forall r, s :: r in FrameRows(bs[0]) && s in DbRows(bs[1..]) ==> r.id != s.id)
       <==> forall k :: 0 < k < |bs| ==> Apart(bs[0], bs[k])
  {
    hide FrameRows, DbRows;
    var rest := bs[1..];
    if forall k :: 0 < k < |bs| ==> Apart(bs[0], bs[k]) {
      forall r, s | r in FrameRows(bs[0]) && s in DbRows(rest) ensures r.id != s.id {
        var k := DbRowFrom(rest, s);
        assert Apart(bs[0], bs[k + 1]);
      }
    }
    forall k, s | 0 < k < |bs| && s in FrameRows(bs[k]) ensures s in DbRows(rest) { FrameInDb(rest, k - 1, s); }
  }

  lemma {:induction false} EachSplit(bs: seq<Build>)
    requires bs != []
    ensures EachDistinct(bs) <==> DistinctIds(FrameRows(bs[0])) && EachDistinct(bs[1..])
  {
    hide FrameRows, DistinctIds;
    assert forall k :: 0 < k < |bs| ==> bs[k] == bs[1..][k - 1];
  }

  lemma {:induction false} ApartSplit(bs: seq<Build>)
    requires bs != []
    ensures AllApart(bs) <==> AllApart(bs[1..]) && forall k :: 0 < k < |bs| ==> Apart(bs[0], bs[k])
  {
    hide Apart;
    var rest := bs[1..];
    if AllApart(rest) && forall k :: 0 < k < |bs| ==> Apart(bs[0], bs[k]) {
      forall i, j | 0 <= i < j < |bs| ensures Apart(bs[i], bs[j]) {
        if i > 0 { assert rest[i - 1] == bs[i] && rest[j - 1] == bs[j]; }
      }
    }
    if AllApart(bs) {
      forall i, j | 0 <= i < j < |rest|
        ensures Apart(rest[i], rest[j])
      {
        assert rest[i] == bs[i + 1] && rest[j] == bs[j + 1];
      }
    }
  }

  /** The primary key of the whole database: that of each frame, and no id in two frames. */
  lemma {:induction false} KeyOfDb(bs: seq<Build>)
    ensures DistinctIds(DbRows(bs)) <==> EachDistinct(bs) && AllApart(bs)
    decreases |bs|
  {
    if bs != [] {
      assert DbRows(bs) == FrameRows(bs[0]) + DbRows(bs[1..]);
      EachSplit(bs);
      ApartSplit(bs);
      FirstApart(bs);
      hide *;
      KeyOfDb(bs[1..]);
      DistinctJoin(FrameRows(bs[0]), DbRows(bs[1..]));
    }
  }

  ghost predicate Fits(b: Build) {
    SiblingsDiffer(b.frame) && SpillsClear(b)
  }

  ghost predicate CodeSpills(bs: seq<Build>, i: nat, j: nat) {
    i < |bs| && j < |bs| && Spills(bs[i].frame.code, bs[j].frame.code)
  }

  /** Where a frame's code goes on with a slash after another's, the titles below the two do not make up for it. */
  ghost predicate CodesClear(bs: seq<Build>) {
    forall i: nat, j: nat :: CodeSpills(bs, i, j) ==> WaysApart(bs[i], bs[j])
  }

  /**
    Exactly when the build of a vehicle gets past the primary key: in each frame sibling titles
    differ, and where a sibling's title, or a frame's code, goes on with a slash after another's,
    the titles below the two do not make up for it.
  */
  lemma {:induction false} DbFitsKey(car: string, bs: seq<Build>)
    requires AllGenuine(car, bs) && CodesDiffer(bs)
    ensures DistinctIds(DbRows(bs)) <==> CodesClear(bs) && forall k :: 0 <= k < |bs| ==> Fits(bs[k])
  {
    hide DbRows, FrameRows, Genuine, Fits, DistinctIds, Apart, AllApart, CodesClear;
    KeyOfDb(bs);
    forall k | 0 <= k < |bs| ensures DistinctIds(FrameRows(bs[k])) <==> Fits(bs[k]) { FrameFits(bs[k]); }
    CodesDecide(car, bs);
  }

  lemma {:induction false} CodesDecide(car: string, bs: seq<Build>)
    requires AllGenuine(car, bs) && CodesDiffer(bs)
    ensures AllApart(bs) <==> CodesClear(bs)
  {
    hide Genuine, Apart, WaysApart, Spills;
    forall i: nat, j: nat | i < |bs| && j < |bs| && i != j
      ensures WaysApart(bs[i], bs[j]) || CodeSpills(bs, i, j) || CodeSpills(bs, j, i)
      ensures Apart(bs[i], bs[j]) <==> WaysApart(bs[i], bs[j])
      ensures Apart(bs[i], bs[j]) <==> Apart(bs[j], bs[i])
    {
      ApartByWays(car, bs[i], bs[j]);
      ApartBoth(bs[i], bs[j]);
      if !CodeSpills(bs, i, j) && !CodeSpills(bs, j, i) { PlainCodesApart(bs[i], bs[j]); }
    }
    forall i: nat, j: nat | CodeSpills(bs, i, j) ensures i != j { NoSelfSpill(bs[i].frame.code); }
  }

  lemma {:induction false} NoSelfSpill(s: string)
    ensures !Spills(s, s)
  {}

  lemma {:induction false} ApartBoth(a: Build, b: Build)
    ensures Apart(a, b) <==> Apart(b, a)
  {
    hide FrameRows;
  }

  /** The guards to look at first: no sibling's title and no frame's code goes on after another's. */
  lemma {:induction false} PlainVehicleFits(car: string, bs: seq<Build>)
    requires AllGenuine(car, bs) && CodesDiffer(bs)
    requires forall k :: 0 <= k < |bs| ==> SiblingsDiffer(bs[k].frame) && NoSpills(bs[k].frame)
    requires forall i: nat, j: nat :: !CodeSpills(bs, i, j)
    ensures DistinctIds(DbRows(bs))
  {
    hide DbRows, FrameRows, Genuine, Fits, DistinctIds, SiblingsDiffer, NoSpills;
    forall k | 0 <= k < |bs| ensures Fits(bs[k]) {
      PlainSiblingsFit(bs[k]);
      FrameFits(bs[k]);
    }
    DbFitsKey(car, bs);
  }

  lemma {:induction false} FrameFits(b: Build)
    requires Genuine(b)
    ensures DistinctIds(FrameRows(b)) <==> Fits(b)
  {
    BuildFitsKey(b);
  }

  // ------------------------------------------------------------------ reading

  /**
    One frame of a finished database (its rows have ids of their own, as KeyOfDb says) is a tree,
    and each of its servable leaves under the top opens by its titles.
  */
  lemma {:induction false} LeafIsFoundInDb(car: string, bs: seq<Build>, k: nat, t: nat)
    returns (r: NodeRow, segs: seq<string>)
    requires AllGenuine(car, bs) && CodesDiffer(bs) && k < |bs| && DistinctIds(FrameRows(bs[k]))
    requires Servable(bs[k].frame, t) && ReachesTop(bs[k].frame, t)
    ensures var rows := RowsOf(DbRows(bs), bs[k].frame.code);
            && Tree(rows) && r in rows && r.tree == Some(t) && r.leaf
            && segs == TitlesTo(rows, r) && Walk(rows, rows[0], segs) == Some(r)
  {
    hide CodesDiffer, DbRows, RowsOf, FrameRows, Genuine, Servable, ReachesTop, Tree, Walk, TitlesTo, DistinctIds;
    FrameOfDb(bs, k);
    r, segs := LeafIsFound(bs[k], t);
  }
}
