/** build_vehicle_db for one frame, and the two loops that read a finished catalogue. */
module CatalogueBuilder {
  import opened Wrappers
  import opened Links
  import opened Parts
  import opened Catalogue
  import opened CataloguePaths
  import opened Vehicle

  /** What `nodes` and `groups` hold after the first `n` paths of a frame. */
  ghost function RowsSoFar(b: Build, n: nat): seq<NodeRow>
    requires n <= |b.paths|
  {
    [RootRow(b.root, b.frame.code)] + NodeRows(b, n)
  }

  /** The paths from position `n` on are `es`. */
  ghost predicate ComesNext(b: Build, n: nat, es: seq<seq<nat>>) {
    n + |es| <= |b.paths| && b.paths[n..n + |es|] == es
  }

  lemma {:induction false} ComesNextSplit(b: Build, n: nat, x: seq<seq<nat>>, y: seq<seq<nat>>)
    requires ComesNext(b, n, x + y)
    ensures ComesNext(b, n, x) && ComesNext(b, n + |x|, y)
  {
    var s := b.paths[n..n + |x + y|];
    assert b.paths[n..n + |x|] == s[..|x|] == x;
    assert b.paths[n + |x|..n + |x| + |y|] == s[|x|..] == y;
  }

  lemma {:induction false} MoreRows(b: Build, n: nat, m: nat)
    requires n <= m <= |b.paths|
    ensures RowsSoFar(b, n) <= RowsSoFar(b, m)
  {
    hide RowOf, Groups;
    if n < m { MoreRows(b, n, m - 1); }
  }

  /** Rows in front do not get less alike by adding rows behind. */
  lemma {:induction false} StillClashes(a: seq<NodeRow>, all: seq<NodeRow>)
    requires a <= all && !DistinctIds(a)
    ensures !DistinctIds(all)
  {
    var i, j :| 0 <= i < j < |a| && a[i].id == a[j].id;
    assert all[i].id == all[j].id;
  }

  ghost predicate Climbed(links: Links, keep: set<nat>, cur: Option<nat>) {
    forall x, p :: x in keep && x in links && links[x] == Some(p) && p in links ==> p in keep || cur == Some(p)
  }

  /** A set closed under parents holds everything above its members. */
  lemma {:induction false} ClimbedHolds(links: Links, keep: set<nat>, t: nat, k: nat)
    requires Climbed(links, keep, None) && t in keep && keep <= links.Keys
    requires Up(links, t, k).Some? && Up(links, t, k).value in links
    ensures Up(links, t, k).value in keep
  {
    if k > 0 {
      ClimbedHolds(links, keep, t, k - 1);
    }
  }

  lemma {:induction false} UpZero(links: Links, t: nat)
    ensures Up(links, t, 0) == Some(t)
  {}

  lemma {:induction false} NothingClimbed(links: Links)
    ensures Climbed(links, {}, None)
  {}

  lemma {:induction false} ClimbStep(links: Links, keep: set<nat>, c: nat)
    requires Climbed(links, keep, Some(c)) && c in links
    ensures Climbed(links, keep + {c}, links[c])
  {}

  lemma {:induction false} ClimbEnds(links: Links, keep: set<nat>, cur: Option<nat>)
    ensures Climbed(links, keep, None) ==> Climbed(links, keep, cur)
    ensures Climbed(links, keep, cur) && (cur.None? || cur.value !in links || cur.value in keep) ==>
         Climbed(links, keep, None)
  {}

  lemma {:induction false} AboveServable(fr: Frame, t: nat, k: nat)
    requires Servable(fr, t) && Up(Parents(fr), t, k).Some? && Up(Parents(fr), t, k).value in fr.tree
    ensures Up(Parents(fr), t, k).value in KeptIds(fr)
    ensures Up(Parents(fr), t, k + 1) == fr.tree[Up(Parents(fr), t, k).value].parent
  {
    assert AtOrAbove(Parents(fr), Up(Parents(fr), t, k).value, t);
  }

  lemma {:induction false} KeptInTree(fr: Frame)
    ensures KeptIds(fr) <= fr.tree.Keys
  {}

  lemma {:induction false} KeptClimbed(fr: Frame, keep: set<nat>, x: nat)
    requires Staged(fr) && Climbed(Parents(fr), keep, None) && keep <= fr.tree.Keys && x in KeptIds(fr)
    requires forall t :: t in fr.order && Servable(fr, t) ==> t in keep
    ensures x in keep
  {
    var t :| Servable(fr, t) && AtOrAbove(Parents(fr), x, t);
    assert t in fr.order;
    var k: nat :| Up(Parents(fr), t, k) == Some(x);
    ClimbedHolds(Parents(fr), keep, t, k);
  }

  /** What the next path adds to the rows. */
  lemma {:induction false} NextRow(b: Build, n: nat, ns: seq<NodeRow>)
    requires n < |b.paths|
    ensures ns + RowsSoFar(b, n) + [RowOf(b, b.paths[n], b.next + Groups(b, n))] == ns + RowsSoFar(b, n + 1)
  {
    hide RowOf, Groups;
    var row := RowOf(b, b.paths[n], b.next + Groups(b, n));
    assert RowsSoFar(b, n + 1) == RowsSoFar(b, n) + [row];
  }

  function NewRow(code: string, parentPath: string, title: string, depth: nat, t: nat, leaf: bool, next: nat): NodeRow {
    NodeRow(Child(parentPath, title), Some(parentPath), title, depth, leaf,
            if leaf then Some(next) else None, Some(t), code)
  }

  /** The row and the group of a path, spelled out. */
  lemma {:induction false} PathShows(b: Build, path: seq<nat>, t: nat, next: nat)
    requires Last(path) == Some(t) && t in b.frame.tree
    ensures path != [] && ServedPath(b, path) == Servable(b.frame, t)
    ensures var up, title := PathOf(b, path[..|path| - 1]), TitleOf(b.frame, b.keep, t);
            && PathOf(b, path) == Child(up, title)
            && RowOf(b, path, next) == NewRow(b.frame.code, up, title, |path|, t, Servable(b.frame, t), next)
            && (Servable(b.frame, t) ==>
                  GroupOf(b, path, next)
                    == Group(next, Child(up, title), t, KeptSections(b.frame.tree[t].sections), b.frame.code))
  {
    hide TitleOf, Servable, KeptSections, Child;
  }

  /** The rows of `n` paths of the build `b` are in, behind `ns` and `gs`. */
  ghost predicate Holds(nodes: seq<NodeRow>, groups: seq<Group>, next: nat, b: Build, n: nat,
                        ns: seq<NodeRow>, gs: seq<Group>)
    requires n <= |b.paths|
  {
    && nodes == ns + RowsSoFar(b, n) && groups == gs + GroupRows(b, n)
    && next == b.next + Groups(b, n) && DistinctIds(nodes)
  }

  lemma {:induction false} HoldsDistinct(nodes: seq<NodeRow>, groups: seq<Group>, next: nat, b: Build, n: nat,
                                         ns: seq<NodeRow>, gs: seq<Group>)
    requires n <= |b.paths| && Holds(nodes, groups, next, b, n, ns, gs)
    ensures DistinctIds(nodes)
  {}

  /** Once the next path's row is in, one path more is done; if it does not fit, neither do the rows up to it. */
  lemma {:induction false} RowIn(nodes: seq<NodeRow>, groups: seq<Group>, next: nat, b: Build, n: nat,
                                 ns: seq<NodeRow>, gs: seq<Group>, t: nat)
    requires n < |b.paths| && Holds(nodes, groups, next, b, n, ns, gs) && Last(b.paths[n]) == Some(t)
    requires t in b.frame.tree
    ensures b.paths[n] != []
    ensures var up, title := PathOf(b, b.paths[n][..|b.paths[n]| - 1]), TitleOf(b.frame, b.keep, t);
            var leaf := Servable(b.frame, t);
            var row := NewRow(b.frame.code, up, title, |b.paths[n]|, t, leaf, next);
            var group := Group(next, Child(up, title), t, KeptSections(b.frame.tree[t].sections), b.frame.code);
            && PathOf(b, b.paths[n]) == Child(up, title)
            && (if DistinctIds(nodes + [row])
                then Holds(nodes + [row], groups + (if leaf then [group] else []), next + (if leaf then 1 else 0),
                           b, n + 1, ns, gs)
                else !DistinctIds(ns + RowsSoFar(b, n + 1)))
  {
    PathShows(b, b.paths[n], t, next);
    hide *;
    NextHolds(nodes, groups, next, b, n, ns, gs);
  }

  /** The same, in the catalogue's terms. */
  lemma {:induction false} NextHolds(nodes: seq<NodeRow>, groups: seq<Group>, next: nat, b: Build, n: nat,
                                     ns: seq<NodeRow>, gs: seq<Group>)
    requires n < |b.paths| && Holds(nodes, groups, next, b, n, ns, gs)
    ensures var row, leaf := RowOf(b, b.paths[n], next), ServedPath(b, b.paths[n]);
            if DistinctIds(nodes + [row])
            then Holds(nodes + [row], groups + (if leaf then [GroupOf(b, b.paths[n], next)] else []),
                       next + (if leaf then 1 else 0), b, n + 1, ns, gs)
            else !DistinctIds(ns + RowsSoFar(b, n + 1))
  {
    NextRow(b, n, ns);
    hide DistinctIds, RowsSoFar, NodeRows, GroupRows, Groups, RowOf, GroupOf, ServedPath;
    assert groups + [] == groups;
  }

  /** The kept rows with one parent and label, in order. */
  function Named(fr: Frame, keep: set<nat>, order: seq<nat>, key: (Option<nat>, string)): seq<nat> {
    if order == [] then []
    else
      var t := order[|order| - 1];
      Named(fr, keep, order[..|order| - 1], key)
      + if t in keep && t in fr.tree && fr.tree[t].parent == key.0 && fr.tree[t].title == key.1 then [t] else []
  }

  lemma {:induction false} NamedNone(fr: Frame, keep: set<nat>)
    ensures forall key :: Named(fr, keep, [], key) == []
  {}

  lemma {:induction false} NamedNext(fr: Frame, keep: set<nat>, order: seq<nat>, t: nat, key: (Option<nat>, string))
    requires t in fr.tree
    ensures Named(fr, keep, order + [t], key)
         == Named(fr, keep, order, key) + if t in keep && (fr.tree[t].parent, fr.tree[t].title) == key then [t] else []
  {
    assert (order + [t])[..|order|] == order;
  }

  lemma {:induction false} NamedMember(fr: Frame, keep: set<nat>, order: seq<nat>, key: (Option<nat>, string), u: nat)
    requires Distinct(order)
    ensures Distinct(Named(fr, keep, order, key))
    ensures u in Named(fr, keep, order, key) <==>
              u in order && u in keep && u in fr.tree && fr.tree[u].parent == key.0 && fr.tree[u].title == key.1
  {
    if order != [] {
      var n := |order| - 1;
      assert order == order[..n] + [order[n]];
      NamedMember(fr, keep, order[..n], key, u);
      NamedMember(fr, keep, order[..n], key, order[n]);
    }
  }

  lemma {:induction false} NamedAlone(fr: Frame, keep: set<nat>, t: nat)
    requires Staged(fr) && t in keep && keep <= fr.tree.Keys
    ensures var s := Named(fr, keep, fr.order, (fr.tree[t].parent, fr.tree[t].title));
            && s != [] && (|s| == 1 <==> !SharesTitle(fr, keep, t))
    ensures TitleOf(fr, keep, t) == if !SharesTitle(fr, keep, t) then fr.tree[t].title
                                    else if fr.tree[t].gid.Some? && fr.tree[t].gid.value != 0
                                    then fr.tree[t].title + " (" + Decimal(fr.tree[t].gid.value) + ")"
                                    else fr.tree[t].title + " #" + Decimal(t)
  {
    var key := (fr.tree[t].parent, fr.tree[t].title);
    var s := Named(fr, keep, fr.order, key);
    NamedMember(fr, keep, fr.order, key, t);
    if |s| > 1 {
      var u := if s[0] == t then s[1] else s[0];
      NamedMember(fr, keep, fr.order, key, u);
      assert u in s;
    }
    if SharesTitle(fr, keep, t) {
      var u :| && u in keep && u in fr.tree && u != t
               && fr.tree[u].parent == fr.tree[t].parent && fr.tree[u].title == fr.tree[t].title;
      NamedMember(fr, keep, fr.order, key, u);
    }
  }

  class VehicleDb {
    var nodes: seq<NodeRow>
    var groups: seq<Group>
    var nextGroupId: nat

    constructor ()
      ensures nodes == [] && groups == [] && nextGroupId == 1
    {
      nodes, groups, nextGroupId := [], [], 1;
    }

    method ServableLeaves(fr: Frame) returns (servable: map<nat, seq<Served>>)
      requires Staged(fr)
      ensures forall t :: t in servable <==> Servable(fr, t)
      ensures forall t :: t in servable ==> t in fr.tree && servable[t] == KeptSections(fr.tree[t].sections)
    {
      servable := map[];
      for i := 0 to |fr.order|
        invariant forall t :: t in servable <==> t in fr.order[..i] && Servable(fr, t)
        invariant forall t :: t in servable ==> t in fr.tree && servable[t] == KeptSections(fr.tree[t].sections)
      {
        var t := fr.order[i];
        assert t in fr.order;
        if fr.tree[t].isLeaf && fr.tree[t].pageOk {
          var keep := KeptSections(fr.tree[t].sections);
          if keep != [] { servable := servable[t := keep]; }
        }
      }
      assert fr.order[..|fr.order|] == fr.order;
    }

    /** Walks up from every servable leaf until the top, a missing parent, or a row already kept. */
    method KeepIds(fr: Frame, servable: map<nat, seq<Served>>) returns (keep: set<nat>)
      requires Staged(fr) && forall t :: t in servable <==> Servable(fr, t)
      ensures keep == KeptIds(fr)
    {
      hide Kept, KeptIds, Servable, Climbed, Up;
      ghost var links := Parents(fr);
      keep := {};
      NothingClimbed(links);
      for i := 0 to |fr.order|
        invariant keep <= KeptIds(fr) && Climbed(links, keep, None)
        invariant forall t :: t in fr.order[..i] && t in servable ==> t in keep
      {
        var t := fr.order[i];
        if t in servable {
          assert t in fr.order;
          var cur := Some(t);
          ghost var k: nat := 0;
          ghost var before := keep;
          ClimbEnds(links, keep, cur);
          UpZero(links, t);
          while cur.Some? && cur.value in fr.tree && cur.value !in keep
            invariant keep <= KeptIds(fr) && Climbed(links, keep, cur) && before <= keep
            invariant Up(links, t, k) == cur
            invariant if k == 0 then cur == Some(t) else t in keep
            decreases fr.tree.Keys - keep
          {
            AboveServable(fr, t, k);
            ClimbStep(links, keep, cur.value);
            keep := keep + {cur.value};
            cur := fr.tree[cur.value].parent;
            k := k + 1;
          }
          ClimbEnds(links, keep, cur);
        }
      }
      assert fr.order[..|fr.order|] == fr.order;
      KeptInTree(fr);
      forall x | x in KeptIds(fr) ensures x in keep { KeptClimbed(fr, keep, x); }
    }

    /** Kept rows grouped by parent and label. */
    method GroupByTitle(fr: Frame, keep: set<nat>) returns (ids: map<(Option<nat>, string), seq<nat>>)
      requires Staged(fr)
      ensures forall key :: (if key in ids then ids[key] else []) == Named(fr, keep, fr.order, key)
    {
      hide Named, Decimal;
      NamedNone(fr, keep);
      assert fr.order[..0] == [];
      ids := map[];
      for i := 0 to |fr.order|
        invariant forall key :: (if key in ids then ids[key] else []) == Named(fr, keep, fr.order[..i], key)
      {
        var t := fr.order[i];
        assert t in fr.order && fr.order[..i + 1] == fr.order[..i] + [t];
        forall key ensures Named(fr, keep, fr.order[..i + 1], key)
             == Named(fr, keep, fr.order[..i], key)
                + if t in keep && (fr.tree[t].parent, fr.tree[t].title) == key then [t] else []
        {
          NamedNext(fr, keep, fr.order[..i], t, key);
        }
        if t in keep {
          var key := (fr.tree[t].parent, fr.tree[t].title);
          ids := ids[key := (if key in ids then ids[key] else []) + [t]];
        }
      }
      assert fr.order[..|fr.order|] == fr.order;
    }

    /** A row alone in its group keeps the plain label. */
    method DisplayTitles(fr: Frame, keep: set<nat>) returns (titles: map<nat, string>)
      requires Staged(fr) && keep <= fr.tree.Keys
      ensures titles.Keys == keep && forall t :: t in keep ==> titles[t] == TitleOf(fr, keep, t)
    {
      hide TitleOf, SharesTitle, Named, Decimal;
      var ids := GroupByTitle(fr, keep);
      titles := map[];
      for i := 0 to |fr.order|
        invariant forall t :: t in titles <==> t in fr.order[..i] && t in keep
        invariant forall t :: t in titles ==> titles[t] == TitleOf(fr, keep, t)
      {
        var t := fr.order[i];
        assert t in fr.order;
        if t in keep {
          var row := fr.tree[t];
          NamedAlone(fr, keep, t);
          var key := (row.parent, row.title);
          assert (if key in ids then ids[key] else []) == Named(fr, keep, fr.order, key);
          var title := if |ids[key]| == 1 then row.title
                       else if row.gid.Some? && row.gid.value != 0 then row.title + " (" + Decimal(row.gid.value) + ")"
                       else row.title + " #" + Decimal(t);
          titles := titles[t := title];
        }
      }
      assert fr.order[..|fr.order|] == fr.order;
    }

    /** One more node; false is the IntegrityError that ends the whole build. */
    method InsertNode(row: NodeRow) returns (ok: bool)
      requires DistinctIds(nodes)
      modifies this`nodes
      ensures ok <==> DistinctIds(old(nodes) + [row])
      ensures nodes == if ok then old(nodes) + [row] else old(nodes)
    {
      for i := 0 to |nodes|
        invariant forall k :: 0 <= k < i ==> nodes[k].id != row.id
        invariant nodes == old(nodes)
      {
        if nodes[i].id == row.id {
          assert (nodes + [row])[i].id == (nodes + [row])[|nodes|].id;
          return false;
        }
      }
      nodes := nodes + [row];
      return true;
    }

    /** One row of emit(): the node and, for a served leaf, its group. */
    method EmitRow(code: string, servable: map<nat, seq<Served>>, titles: map<nat, string>, t: nat,
                   parentPath: string, depth: nat)
      returns (ok: bool, path: string)
      requires DistinctIds(nodes) && t in titles
      modifies this
      ensures path == Child(parentPath, titles[t])
      ensures var row := NewRow(code, parentPath, titles[t], depth, t, t in servable, old(nextGroupId));
              && (ok <==> DistinctIds(old(nodes) + [row]))
              && (ok ==> nodes == old(nodes) + [row])
      ensures ok ==> groups == old(groups)
                               + if t in servable then [Group(old(nextGroupId), path, t, servable[t], code)] else []
      ensures ok ==> nextGroupId == old(nextGroupId) + if t in servable then 1 else 0
    {
      hide DistinctIds;
      var title := titles[t];
      path := Child(parentPath, title);
      var isLeaf := t in servable;
      var group := if isLeaf then Some(nextGroupId) else None;
      ok := InsertNode(NodeRow(path, Some(parentPath), title, depth, isLeaf, group, Some(t), code));
      if ok && isLeaf {
        groups := groups + [Group(nextGroupId, path, t, servable[t], code)];
        nextGroupId := nextGroupId + 1;
      }
    }

    method Emit(fr: Frame, keep: set<nat>, servable: map<nat, seq<Served>>, titles: map<nat, string>, t: nat,
                parentPath: string, depth: nat,
                ghost b: Build, ghost path: seq<nat>, ghost n: nat, ghost ns: seq<NodeRow>, ghost gs: seq<Group>)
      returns (ok: bool)
      requires b.frame == fr && b.keep == keep && n <= |b.paths| && Holds(nodes, groups, nextGroupId, b, n, ns, gs)
      requires Prepared(fr, keep, servable, titles)
      requires Chain(fr, path) && Last(path) == Some(t) && t in keep
      requires ComesNext(b, n, EmitFrom(fr, keep, path))
      requires depth == |path| && parentPath == PathOf(b, path[..|path| - 1])
      modifies this
      ensures ok ==> Holds(nodes, groups, nextGroupId, b, n + |EmitFrom(fr, keep, path)|, ns, gs)
      ensures !ok ==> !DistinctIds(ns + RowsSoFar(b, n + |EmitFrom(fr, keep, path)|))
      decreases |fr.tree| - |path|, 1
    {
      hide *;
      var kids := KidsOf(fr, keep, fr.order, Some(t));
      FirstOf(fr, keep, path, t, b, n);
      PreparedAt(fr, keep, servable, titles, t);
      var here: string;
      ghost var nodes0, groups0, next0 := nodes, groups, nextGroupId;
      HoldsDistinct(nodes, groups, nextGroupId, b, n, ns, gs);
      ok, here := EmitRow(fr.code, servable, titles, t, parentPath, depth);
      RowIn(nodes0, groups0, next0, b, n, ns, gs, t);
      if !ok {
        Clashes(b, n + 1, n + |EmitFrom(fr, keep, path)|, ns);
        return;
      }
      ok := EmitKidRows(fr, keep, servable, titles, kids, here, depth + 1, b, path, n + 1, ns, gs);
    }

    /** The rows of some kids and of everything below them, kid after kid. */
    method EmitKidRows(fr: Frame, keep: set<nat>, servable: map<nat, seq<Served>>, titles: map<nat, string>,
                       kids: seq<nat>, parentPath: string, depth: nat,
                       ghost b: Build, ghost path: seq<nat>, ghost n: nat, ghost ns: seq<NodeRow>, ghost gs: seq<Group>)
      returns (ok: bool)
      requires b.frame == fr && b.keep == keep && n <= |b.paths| && Holds(nodes, groups, nextGroupId, b, n, ns, gs)
      requires Prepared(fr, keep, servable, titles)
      requires Chain(fr, path) && KidList(fr, path, kids) && AllIn(keep, kids)
      requires ComesNext(b, n, EmitKids(fr, keep, path, kids))
      requires depth == |path| + 1 && parentPath == PathOf(b, path)
      modifies this
      ensures ok ==> Holds(nodes, groups, nextGroupId, b, n + |EmitKids(fr, keep, path, kids)|, ns, gs)
      ensures !ok ==> !DistinctIds(ns + RowsSoFar(b, n + |EmitKids(fr, keep, path, kids)|))
      decreases |fr.tree| - |path|, 0
    {
      hide *;
      ghost var m := n + |EmitKids(fr, keep, path, kids)|;
      ghost var at: nat := n;
      ok := true;
      KidsEnd(fr, keep, path, kids, b, n);
      assert kids[0..] == kids && kids[|kids|..] == [];
      for i := 0 to |kids|
        invariant at <= m <= |b.paths| && KidList(fr, path, kids[i..]) && AllIn(keep, kids[i..])
        invariant ok && Holds(nodes, groups, nextGroupId, b, at, ns, gs)
        invariant ComesNext(b, at, EmitKids(fr, keep, path, kids[i..]))
            && at + |EmitKids(fr, keep, path, kids[i..])| == m
      {
        KidStep(fr, keep, path, kids[i..], b, at);
        assert kids[i..][1..] == kids[i + 1..];
        ghost var longer := path + [kids[i]];
        ok := Emit(fr, keep, servable, titles, kids[i], parentPath, depth, b, longer, at, ns, gs);
        at := at + |EmitFrom(fr, keep, longer)|;
        if !ok {
          Clashes(b, at, m, ns);
          return;
        }
      }
    }

    /**
      One frame. It ends in an IntegrityError exactly when two of its rows, or one of them and
      one of an earlier frame, have the same path; otherwise it adds the frame's rows.
    */
    method BuildFrame(fr: Frame, root: string) returns (ok: bool)
      requires Staged(fr) && DistinctIds(nodes)
      modifies this
      ensures var b := BuildOf(fr, root, old(nextGroupId));
              && (ok <==> DistinctIds(old(nodes) + FrameRows(b)))
              && (ok ==> nodes == old(nodes) + FrameRows(b) && groups == old(groups) + FrameGroups(b)
                         && nextGroupId == old(nextGroupId) + |FrameGroups(b)|)
    {
      ghost var b := BuildOf(fr, root, nextGroupId);
      ghost var ns, gs := nodes, groups;
      var servable := ServableLeaves(fr);
      if servable == map[] {
        NothingServable(b);
        assert nodes + [] == nodes && groups + [] == groups;
        return true;
      }
      assert AnyServable(fr) by { var t :| t in servable; }
      var keep := KeepIds(fr, servable);
      KeptInTree(fr);
      var titles := DisplayTitles(fr, keep);
      assert Prepared(fr, keep, servable, titles);
      ok := BuildTree(fr, root, keep, servable, titles, b);
    }

    /**
      The whole vehicle, frame after frame in an empty database. An IntegrityError ends the build
      exactly when two rows of the vehicle have the same path; the file is published only otherwise.
    */
    method BuildVehicle(car: string, frames: seq<Frame>) returns (ok: bool, ghost bs: seq<Build>)
      requires AllStaged(frames) && nodes == [] && groups == [] && nextGroupId == 1
      modifies this
      ensures VehicleBuild(car, bs, 1) && Covers(bs, frames) && |bs| == |frames|
      ensures ok <==> DistinctIds(DbRows(bs))
      ensures ok ==> nodes == DbRows(bs) && groups == DbGroups(bs) && nextGroupId == 1 + |groups|
    {
      bs := [];
      NothingBuilt(car, frames);
      hide *;
      for i := 0 to |frames|
        invariant VehicleBuild(car, bs, 1) && AllGenuine(car, bs) && Covers(bs, frames) && |bs| == i
        invariant DistinctIds(nodes) && nodes == DbRows(bs) && groups == DbGroups(bs) && nextGroupId == 1 + |groups|
      {
        ghost var b := NextFrame(car, bs, frames, 1);
        ok := BuildFrame(frames[i], Child(car, frames[i].code));
        bs := bs + [b];
        IsVehicle(car, bs, 1);
        if !ok {
          ghost var built := DbRows(bs);
          bs := Complete(car, bs, frames, 1);
          IsVehicle(car, bs, 1);
          StillClashes(built, DbRows(bs));
          return;
        }
      }
      return true, bs;
    }

    /** The root row, and emit() for every row at the top. */
    method BuildTree(fr: Frame, root: string, keep: set<nat>, servable: map<nat, seq<Served>>, titles: map<nat, string>,
                     ghost b: Build)
      returns (ok: bool)
      requires Staged(fr) && DistinctIds(nodes) && AnyServable(fr) && Prepared(fr, keep, servable, titles)
          && keep == KeptIds(fr)
      requires b == BuildOf(fr, root, nextGroupId)
      modifies this
      ensures ok <==> DistinctIds(old(nodes) + FrameRows(b))
      ensures ok ==> nodes == old(nodes) + FrameRows(b) && groups == old(groups) + FrameGroups(b)
                     && nextGroupId == old(nextGroupId) + |FrameGroups(b)|
    {
      hide TitleOf, KidsOf, DistinctIds, KeptIds, Servable, Prepared, AnyServable, Staged;
      ghost var ns, gs, all := nodes, groups, |b.paths|;
      var top := KidsOf(fr, keep, fr.order, None);
      assert FrameRows(b) == RowsSoFar(b, all);
      assert b.paths == EmitKids(fr, keep, [], top) && ComesNext(b, 0, b.paths);
      assert ns + RowsSoFar(b, 0) == ns + [RootRow(root, fr.code)];
      assert gs + GroupRows(b, 0) == gs;
      assert Groups(b, 0) == 0;
      ok := InsertNode(RootRow(root, fr.code));
      hide FrameRows, RowsSoFar, NodeRows, GroupRows, Groups;
      if !ok {
        Clashes(b, 0, all, ns);
        return;
      }
      assert Holds(nodes, groups, nextGroupId, b, 0, ns, gs);
      ok := EmitKidRows(fr, keep, servable, titles, top, root, 1, b, [], 0, ns, gs);
    }
  }

  ghost predicate AllIn(keep: set<nat>, kids: seq<nat>) {
    forall k :: k in kids ==> k in keep
  }

  /** emit() of `path` inserts its own row and then its kids'. */
  lemma {:induction false} FirstOf(fr: Frame, keep: set<nat>, path: seq<nat>, t: nat, b: Build, n: nat)
    requires Chain(fr, path) && Last(path) == Some(t) && ComesNext(b, n, EmitFrom(fr, keep, path))
    ensures path != [] && n < |b.paths| && b.paths[n] == path
    ensures var kids := KidsOf(fr, keep, fr.order, Some(t));
            && KidList(fr, path, kids) && AllIn(keep, kids) && ComesNext(b, n + 1, EmitKids(fr, keep, path, kids))
            && |EmitFrom(fr, keep, path)| == 1 + |EmitKids(fr, keep, path, kids)|
            && n + |EmitFrom(fr, keep, path)| <= |b.paths|
  {
    hide KidsOf, Chain;
    var kids := KidsOf(fr, keep, fr.order, Some(t));
    assert EmitFrom(fr, keep, path) == [path] + EmitKids(fr, keep, path, kids);
    ComesNextSplit(b, n, [path], EmitKids(fr, keep, path, kids));
    assert b.paths[n..n + 1][0] == b.paths[n];
  }

  lemma {:induction false} KidsEnd(fr: Frame, keep: set<nat>, path: seq<nat>, kids: seq<nat>, b: Build, n: nat)
    requires Chain(fr, path) && KidList(fr, path, kids) && AllIn(keep, kids)
        && ComesNext(b, n, EmitKids(fr, keep, path, kids))
    ensures n + |EmitKids(fr, keep, path, kids)| <= |b.paths|
    ensures KidList(fr, path, []) && AllIn(keep, []) && EmitKids(fr, keep, path, []) == []
  {}

  /** The first kid's rows come next, and then those of the others. */
  lemma {:induction false} KidStep(fr: Frame, keep: set<nat>, path: seq<nat>, kids: seq<nat>, b: Build, at: nat)
    requires Chain(fr, path) && KidList(fr, path, kids) && AllIn(keep, kids) && kids != []
    requires ComesNext(b, at, EmitKids(fr, keep, path, kids))
    ensures var longer := path + [kids[0]];
            && Chain(fr, longer) && |path| < |fr.tree| && Last(longer) == Some(kids[0]) && kids[0] in keep
            && longer[..|longer| - 1] == path
            && KidList(fr, path, kids[1..]) && AllIn(keep, kids[1..])
            && ComesNext(b, at, EmitFrom(fr, keep, longer))
            && ComesNext(b, at + |EmitFrom(fr, keep, longer)|, EmitKids(fr, keep, path, kids[1..]))
            && |EmitKids(fr, keep, path, kids)| == |EmitFrom(fr, keep, longer)| + |EmitKids(fr, keep, path, kids[1..])|
            && at + |EmitFrom(fr, keep, longer)| <= |b.paths|
  {
    var longer := path + [kids[0]];
    assert kids[0] in kids;
    KidListTail(fr, path, kids);
    ChainExtends(fr, path, kids[0]);
    ChainShort(fr, longer);
    hide Chain, KidList, ComesNext, EmitFrom;
    ComesNextSplit(b, at, EmitFrom(fr, keep, longer), EmitKids(fr, keep, path, kids[1..]));
  }

  lemma {:induction false} Clashes(b: Build, n: nat, m: nat, ns: seq<NodeRow>)
    requires n <= m <= |b.paths| && !DistinctIds(ns + RowsSoFar(b, n))
    ensures !DistinctIds(ns + RowsSoFar(b, m))
  {
    hide RowsSoFar;
    MoreRows(b, n, m);
    StillClashes(ns + RowsSoFar(b, n), ns + RowsSoFar(b, m));
  }

  lemma {:induction false} PreparedAt(fr: Frame, keep: set<nat>, servable: map<nat, seq<Served>>,
                                      titles: map<nat, string>, t: nat)
    requires Prepared(fr, keep, servable, titles) && t in keep
    ensures t in fr.tree && t in titles && titles[t] == TitleOf(fr, keep, t)
    ensures t in servable <==> Servable(fr, t)
    ensures t in servable ==> servable[t] == KeptSections(fr.tree[t].sections)
  {}

  ghost predicate Prepared(fr: Frame, keep: set<nat>, servable: map<nat, seq<Served>>, titles: map<nat, string>) {
    && keep <= fr.tree.Keys && titles.Keys == keep
    && (forall t :: t in keep ==> titles[t] == TitleOf(fr, keep, t))
    && (forall t :: t in servable <==> Servable(fr, t))
    && (forall t :: t in servable ==> t in fr.tree && servable[t] == KeptSections(fr.tree[t].sections))
  }

  lemma {:induction false} NothingBuilt(car: string, frames: seq<Frame>)
    ensures VehicleBuild(car, [], 1) && AllGenuine(car, []) && Covers([], frames) && DistinctIds([])
    ensures DbRows([]) == [] && DbGroups([]) == []
  {}

  lemma {:induction false} NothingServable(b: Build)
    requires Genuine(b) && forall t :: !Servable(b.frame, t)
    ensures FrameGroups(b) == [] && !AnyServable(b.frame)
  {
    if b.paths != [] {
      assert b.paths[0] in b.paths;
      GenuinePath(b, b.paths[0]);
      assert false;
    }
  }

  // ------------------------------------------------------------------ reading

  /** The first row of depth 0. */
  function RootOf(rows: seq<NodeRow>): Option<NodeRow> {
    if rows == [] then None else if rows[0].depth == 0 then Some(rows[0]) else RootOf(rows[1..])
  }

  /** The `seg` loop of _serve_parts; every query asks for one configuration, that is, one frame. */
  method Resolve(db: seq<NodeRow>, cfg: string, segs: seq<string>) returns (node: Option<NodeRow>)
    ensures var rows := RowsOf(db, cfg);
            node == if RootOf(rows).None? then None else Walk(rows, RootOf(rows).value, segs)
  {
    var rows := RowsOf(db, cfg);
    node := RootOf(rows);
    if node.None? { return; }
    ghost var root := node.value;
    for i := 0 to |segs|
      invariant node.Some? && Walk(rows, node.value, segs[i..]) == Walk(rows, root, segs)
    {
      assert segs[i..][0] == segs[i] && segs[i..][1..] == segs[i + 1..];
      node := FindChild(rows, node.value.id, segs[i]);
      if node.None? { return; }
    }
  }

  /** _title_chain: collected from the row upwards, by id alone, and read from the top. */
  method TitleChain(db: seq<NodeRow>, r: NodeRow) returns (titles: seq<string>)
    requires DistinctIds(db) && Tree(RowsOf(db, r.frame)) && r in db
    ensures r in RowsOf(db, r.frame) && titles == TitlesTo(RowsOf(db, r.frame), r)
  {
    ghost var rows := RowsOf(db, r.frame);
    RowsOfMember(db, r.frame, r);
    hide Tree, ById, RowsOf, DistinctIds;
    titles := [];
    var cur := r;
    while cur.parentId.Some?
      invariant cur in rows && TitlesTo(rows, cur) + titles == TitlesTo(rows, r)
      decreases cur.depth
    {
      titles := [cur.title] + titles;
      var parent := ById(db, cur.parentId.value);
      ghost var p := ParentOf(rows, cur);
      RowsOfMember(db, r.frame, p);
      ByIdFinds(db, p);
      assert TitlesTo(rows, cur) == TitlesTo(rows, p) + [cur.title];
      cur := parent.value;
      if cur.depth == 0 {
        break;
      }
    }
  }
}
