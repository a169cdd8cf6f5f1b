/**
  The catalogue database of one frame: the rows that the emission order becomes, the gates of
  the audit, and that every servable leaf is published once.
*/
module Catalogue {
  import opened Wrappers
  import opened Links
  import opened Parts

  /** A row of `nodes`; its id is the hash of its path, here the path itself. `tree` is the staged row it shows. */
  datatype NodeRow = NodeRow(id: string, parentId: Option<string>, title: string, depth: nat, leaf: bool,
                             group: Option<nat>, tree: Option<nat>, frame: string)

  /** A row of `groups` with its sections and their part rows. */
  datatype Group = Group(id: nat, nodeId: string, tree: nat, sections: seq<Served>, frame: string)

  ghost predicate DistinctIds(rows: seq<NodeRow>) {
    forall i, j :: 0 <= i < j < |rows| ==> rows[i].id != rows[j].id
  }

  function Child(path: string, title: string): string {
    path + "/" + title
  }

  function RootRow(root: string, code: string): NodeRow {
    NodeRow(root, None, code, 0, false, None, None, code)
  }

  /** What one frame's build emits: the paths, in order, and the first free group id. */
  datatype Build = Build(frame: Frame, keep: set<nat>, root: string, paths: seq<seq<nat>>, next: nat)

  ghost function PathOf(b: Build, path: seq<nat>): string {
    if path == [] then b.root
    else Child(PathOf(b, path[..|path| - 1]), TitleOf(b.frame, b.keep, path[|path| - 1]))
  }

  ghost predicate ServedPath(b: Build, path: seq<nat>) {
    path != [] && Servable(b.frame, path[|path| - 1])
  }

  /** The row of a path, the root's for the empty one. */
  ghost function RowOf(b: Build, path: seq<nat>, group: nat): NodeRow {
    if path == [] then RootRow(b.root, b.frame.code) else
    NodeRow(PathOf(b, path), Some(PathOf(b, path[..|path| - 1])), TitleOf(b.frame, b.keep, path[|path| - 1]), |path|,
            ServedPath(b, path), if ServedPath(b, path) then Some(group) else None, Last(path), b.frame.code)
  }

  ghost function GroupOf(b: Build, path: seq<nat>, group: nat): Group
    requires ServedPath(b, path)
  {
    Group(group, PathOf(b, path), path[|path| - 1], KeptSections(b.frame.tree[path[|path| - 1]].sections), b.frame.code)
  }

  /** How many group ids the first `n` paths use up. */
  ghost function Groups(b: Build, n: nat): nat
    requires n <= |b.paths|
  {
    if n == 0 then 0 else Groups(b, n - 1) + if ServedPath(b, b.paths[n - 1]) then 1 else 0
  }

  /** The rows inserted into `nodes` for the first `n` paths ... */
  ghost function NodeRows(b: Build, n: nat): (rows: seq<NodeRow>)
    requires n <= |b.paths|
    ensures |rows| == n
  {
    if n == 0 then [] else NodeRows(b, n - 1) + [RowOf(b, b.paths[n - 1], b.next + Groups(b, n - 1))]
  }

  /** ... and into `groups`. */
  ghost function GroupRows(b: Build, n: nat): (rows: seq<Group>)
    requires n <= |b.paths|
    ensures |rows| == Groups(b, n)
  {
    if n == 0 then []
    else if ServedPath(b, b.paths[n - 1])
    then GroupRows(b, n - 1) + [GroupOf(b, b.paths[n - 1], b.next + Groups(b, n - 1))]
    else GroupRows(b, n - 1)
  }

  lemma {:induction false} NodeRowsAt(b: Build, n: nat, i: nat)
    requires i < n <= |b.paths|
    ensures NodeRows(b, n)[i] == RowOf(b, b.paths[i], b.next + Groups(b, i))
  {
    hide RowOf, Groups;
    if i < n - 1 { NodeRowsAt(b, n - 1, i); }
  }

  lemma {:induction false} GroupRowsAt(b: Build, n: nat, i: nat)
    requires i < n <= |b.paths| && ServedPath(b, b.paths[i])
    ensures Groups(b, i) < Groups(b, n)
    ensures GroupRows(b, n)[Groups(b, i)] == GroupOf(b, b.paths[i], b.next + Groups(b, i))
  {
    hide GroupOf, ServedPath;
    if i < n - 1 { GroupRowsAt(b, n - 1, i); }
  }

  /** Every group comes from one served path. */
  lemma {:induction false} GroupRowsFrom(b: Build, n: nat, j: nat) returns (i: nat)
    requires n <= |b.paths| && j < Groups(b, n)
    ensures i < n && ServedPath(b, b.paths[i]) && j == Groups(b, i)
    ensures GroupRows(b, n)[j] == GroupOf(b, b.paths[i], b.next + j)
  {
    hide GroupOf, ServedPath;
    if j < Groups(b, n - 1) {
      i := GroupRowsFrom(b, n - 1, j);
    } else {
      i := n - 1;
    }
  }

  // ------------------------------------------------------- the rows of a frame

  ghost function BuildOf(fr: Frame, root: string, next: nat): (b: Build) {
    Build(fr, KeptIds(fr), root, Emission(fr, KeptIds(fr)), next)
  }

  ghost predicate AnyServable(fr: Frame) {
    exists t :: Servable(fr, t)
  }

  /** Everything build_vehicle_db inserts into `nodes` for one frame ... */
  ghost function FrameRows(b: Build): seq<NodeRow> {
    if AnyServable(b.frame) then [RootRow(b.root, b.frame.code)] + NodeRows(b, |b.paths|) else []
  }

  /** ... and into `groups`. */
  ghost function FrameGroups(b: Build): seq<Group> {
    GroupRows(b, |b.paths|)
  }

  /** A build as build_vehicle_db runs it. */
  ghost predicate Genuine(b: Build) {
    Staged(b.frame) && b == BuildOf(b.frame, b.root, b.next)
  }

  lemma {:induction false} GenuinePath(b: Build, path: seq<nat>)
    requires Genuine(b)
    ensures path in b.paths <==> path != [] && Chain(b.frame, path) && Kept(b.frame, path[|path| - 1])
    ensures path in b.paths ==> AnyServable(b.frame)
  {
    hide Emission, EmitKids, EmitFrom;
    EmittedPaths(b.frame, path);
  }

  // ---------------------------------------------------------------- the audit

  ghost predicate HasChild(rows: seq<NodeRow>, r: NodeRow) {
    exists c :: c in rows && c.parentId == Some(r.id)
  }

  ghost predicate SameSlot(a: NodeRow, b: NodeRow) {
    a.parentId == b.parentId && a.title == b.title
  }

  ghost predicate GoodRow(p: Published) {
    p.status.xref || (p.raw.pn != "" && p.status.quantity.Some? && p.raw.name != "")
  }

  ghost predicate GoodGroup(g: Group) {
    && g.sections != []
    && (forall s :: s in g.sections ==> s.section.imageExists && s.rows != [])
    && (forall s, p :: s in g.sections && p in s.rows ==> GoodRow(p))
  }

  /** The gates of stage_audit. */
  ghost predicate PassesAudit(rows: seq<NodeRow>, groups: seq<Group>) {
    && (forall r :: r in rows && r.depth >= 1 && !r.leaf ==> HasChild(rows, r))
    && (forall g :: g in groups ==> GoodGroup(g))
    && (forall i, j :: 0 <= i < j < |rows| ==> !SameSlot(rows[i], rows[j]))
  }

  /** The root's row first, then one row for every path. */
  lemma {:induction false} FrameRowsShape(b: Build, k: nat)
    requires k < |FrameRows(b)|
    ensures |FrameRows(b)| == 1 + |b.paths| && FrameRows(b)[0] == RootRow(b.root, b.frame.code)
    ensures k > 0 ==> FrameRows(b)[k] == RowOf(b, b.paths[k - 1], b.next + Groups(b, k - 1))
  {
    hide Genuine, AnyServable, NodeRows, RowOf, Groups;
    if k > 0 { NodeRowsAt(b, |b.paths|, k - 1); }
  }

  lemma {:induction false} PathShown(b: Build, i: nat)
    requires Genuine(b) && i < |b.paths|
    ensures i + 1 < |FrameRows(b)|
    ensures FrameRows(b)[i + 1] == RowOf(b, b.paths[i], b.next + Groups(b, i))
  {
    assert b.paths[i] in b.paths;
    GenuinePath(b, b.paths[i]);
    hide Genuine, AnyServable, NodeRows, RowOf, Groups;
    NodeRowsAt(b, |b.paths|, i);
  }

  /** A kept row that is not served gets a child row. */
  lemma {:induction false} FolderHasChild(b: Build, i: nat)
    requires Genuine(b) && i < |b.paths| && !ServedPath(b, b.paths[i])
    ensures HasChild(FrameRows(b), RowOf(b, b.paths[i], b.next + Groups(b, i)))
  {
    hide Genuine, FrameRows, Groups, Kept, Chain;
    var path := b.paths[i];
    assert path in b.paths;
    GenuinePath(b, path);
    var t := KeptHasKid(b.frame, path[|path| - 1]);
    ChainExtends(b.frame, path, t);
    var longer := path + [t];
    GenuinePath(b, longer);
    var j :| 0 <= j < |b.paths| && b.paths[j] == longer;
    PathShown(b, j);
    assert longer[..|path|] == path;
    assert FrameRows(b)[j + 1] in FrameRows(b);
  }

  lemma {:induction false} GroupsGood(b: Build, j: nat)
    requires j < |FrameGroups(b)|
    ensures GoodGroup(FrameGroups(b)[j])
  {
    hide PathOf, Groups;
    var i := GroupRowsFrom(b, |b.paths|, j);
    var g := FrameGroups(b)[j];
    forall s, p | s in g.sections && p in s.rows ensures GoodRow(p) {}
  }

  /** Two rows of one frame under the same parent with the same title have the same path. */
  lemma {:induction false} SlotFixesId(b: Build, i: nat, j: nat)
    requires i < j < |FrameRows(b)|
    requires SameSlot(FrameRows(b)[i], FrameRows(b)[j])
    ensures FrameRows(b)[i].id == FrameRows(b)[j].id
  {
    hide Genuine, FrameRows, Groups;
    FrameRowsShape(b, i);
    FrameRowsShape(b, j);
  }

  /** A build that the primary key lets through passes its audit, whatever the staged tree looks like. */
  lemma {:induction false} BuildPassesAudit(b: Build)
    requires Genuine(b)
    ensures DistinctIds(FrameRows(b)) ==> PassesAudit(FrameRows(b), FrameGroups(b))
  {
    hide Genuine, FrameRows, FrameGroups, GoodGroup, SameSlot, HasChild;
    var rows := FrameRows(b);
    forall r | r in rows && r.depth >= 1 && !r.leaf ensures HasChild(rows, r) {
      var k :| 0 <= k < |rows| && rows[k] == r;
      FolderAt(b, k);
    }
    forall g | g in FrameGroups(b) ensures GoodGroup(g) {
      var j :| 0 <= j < |FrameGroups(b)| && FrameGroups(b)[j] == g;
      GroupsGood(b, j);
    }
    forall i, j | 0 <= i < j < |rows| && rows[i].id != rows[j].id ensures !SameSlot(rows[i], rows[j]) {
      if SameSlot(rows[i], rows[j]) { SlotFixesId(b, i, j); }
    }
  }

  lemma {:induction false} FolderAt(b: Build, k: nat)
    requires Genuine(b) && k < |FrameRows(b)|
    requires FrameRows(b)[k].depth >= 1 && !FrameRows(b)[k].leaf
    ensures HasChild(FrameRows(b), FrameRows(b)[k])
  {
    hide Genuine, FrameRows, Groups, HasChild, PathOf;
    FrameRowsShape(b, k);
    FolderHasChild(b, k - 1);
  }

  // ------------------------------------------------- every servable leaf, once

  ghost predicate ShownAt(rows: seq<NodeRow>, t: nat, k: nat) {
    k < |rows| && rows[k].tree == Some(t)
  }

  ghost predicate GroupedAt(groups: seq<Group>, t: nat, k: nat) {
    k < |groups| && groups[k].tree == t
  }

  ghost predicate Names(r: NodeRow, g: Group) {
    r.leaf && r.group == Some(g.id) && r.id == g.nodeId && r.tree == Some(g.tree)
  }

  lemma {:induction false} ServableKept(fr: Frame, t: nat)
    requires Servable(fr, t)
    ensures Kept(fr, t)
  {
    assert Up(Parents(fr), t, 0) == Some(t);
  }

  lemma {:induction false} ShownPath(b: Build, t: nat, k: nat)
    requires ShownAt(FrameRows(b), t, k)
    ensures k > 0 && EmittedAt(b.paths, t, k - 1)
  {
    hide Genuine, FrameRows, Groups, PathOf;
    FrameRowsShape(b, k);
  }

  /** The group of a served path, and the row that names it. */
  lemma {:induction false} GroupedPath(b: Build, t: nat, j: nat) returns (i: nat)
    requires Genuine(b) && GroupedAt(FrameGroups(b), t, j)
    ensures EmittedAt(b.paths, t, i) && j == Groups(b, i) && Servable(b.frame, t)
    ensures FrameGroups(b)[j].sections == KeptSections(b.frame.tree[t].sections)
    ensures exists r :: r in FrameRows(b) && Names(r, FrameGroups(b)[j])
  {
    hide Genuine, FrameRows, Groups, PathOf, Servable;
    i := GroupRowsFrom(b, |b.paths|, j);
    PathShown(b, i);
    assert FrameRows(b)[i + 1] in FrameRows(b);
  }

  /** A servable leaf under the top has one row and one group, which name each other; nothing else has a group. */
  lemma {:induction false} LeafPublishedOnce(b: Build, t: nat)
    requires Genuine(b)
    ensures var rows, groups := FrameRows(b), FrameGroups(b);
            && (forall i: nat, j: nat :: ShownAt(rows, t, i) && ShownAt(rows, t, j) ==> i == j)
            && (forall i: nat, j: nat :: GroupedAt(groups, t, i) && GroupedAt(groups, t, j) ==> i == j)
            && ((exists j: nat :: GroupedAt(groups, t, j)) <==> Servable(b.frame, t) && ReachesTop(b.frame, t))
            && (forall j: nat :: GroupedAt(groups, t, j) ==>
                  groups[j].sections == KeptSections(b.frame.tree[t].sections))
            && (forall j: nat :: GroupedAt(groups, t, j) ==> exists r :: r in rows && Names(r, groups[j]))
  {
    EmittedOnce(b.frame, t);
    assert b.paths == Emission(b.frame, KeptIds(b.frame));
    hide Genuine, FrameRows, FrameGroups, Emission, KeptIds, EmittedAt, Servable, ReachesTop, Kept, Names, Groups;
    var rows, groups := FrameRows(b), FrameGroups(b);
    forall i: nat | ShownAt(rows, t, i) ensures i > 0 && EmittedAt(b.paths, t, i - 1) { ShownPath(b, t, i); }
    forall i: nat, j: nat | GroupedAt(groups, t, i) && GroupedAt(groups, t, j) ensures i == j {
      var p := GroupedPath(b, t, i);
      var q := GroupedPath(b, t, j);
    }
    forall j: nat | GroupedAt(groups, t, j)
      ensures Servable(b.frame, t) && ReachesTop(b.frame, t)
           && groups[j].sections == KeptSections(b.frame.tree[t].sections)
      ensures exists r :: r in rows && Names(r, groups[j])
    {
      var i := GroupedPath(b, t, j);
    }
    if Servable(b.frame, t) && ReachesTop(b.frame, t) {
      ServableKept(b.frame, t);
      var i: nat :| EmittedAt(b.paths, t, i);
      LeafGrouped(b, t, i);
    }
  }

  lemma {:induction false} LeafGrouped(b: Build, t: nat, i: nat)
    requires EmittedAt(b.paths, t, i) && Servable(b.frame, t)
    ensures exists j: nat :: GroupedAt(FrameGroups(b), t, j)
  {
    hide Servable, Groups, PathOf;
    GroupRowsAt(b, |b.paths|, i);
    assert GroupedAt(FrameGroups(b), t, Groups(b, i));
  }
}
