/**
  What the rows of one frame say, row by row, and in which order they come: document order, every
  row in front of what hangs below it, and group ids in that order.
*/
module FrameListing {
  import opened Wrappers
  import opened Parts
  import opened Catalogue

  // -------------------------------------------------------------------- order

  /** `x` stands before `y` in the staged document. */
  ghost predicate InOrder(order: seq<nat>, x: nat, y: nat) {
    exists i, j :: 0 <= i < j < |order| && order[i] == x && order[j] == y
  }

  /** `c` goes down to `d`, or they part at two rows that stand in document order. */
  ghost predicate Precedes(fr: Frame, c: seq<nat>, d: seq<nat>) {
    c < d || exists k :: 0 <= k < |c| && k < |d| && c[..k] == d[..k] && InOrder(fr.order, c[k], d[k])
  }

  ghost predicate Sorted(fr: Frame, paths: seq<seq<nat>>) {
    forall i, j :: 0 <= i < j < |paths| ==> Precedes(fr, paths[i], paths[j])
  }

  lemma {:induction false} OrderLater(order: seq<nat>, x: nat, y: nat)
    requires order != [] && (InOrder(order[1..], x, y) || (x == order[0] && y in order[1..]))
    ensures InOrder(order, x, y)
  {
    if InOrder(order[1..], x, y) {
      var i, j :| 0 <= i < j < |order[1..]| && order[1..][i] == x && order[1..][j] == y;
      assert order[i + 1] == x && order[j + 1] == y;
    } else {
      var j :| 0 <= j < |order[1..]| && order[1..][j] == y;
      assert order[0] == x && order[j + 1] == y;
    }
  }

  lemma {:induction false} OrderStep(order: seq<nat>, first: seq<nat>, rest: seq<nat>, i: nat, j: nat)
    requires order != [] && first <= order[..1] && i < j < |first| + |rest| && forall y :: y in rest ==> y in order[1..]
    requires i >= |first| ==> InOrder(order[1..], rest[i - |first|], rest[j - |first|])
    ensures InOrder(order, (first + rest)[i], (first + rest)[j])
  {
    hide InOrder;
    if i < |first| { assert rest[j - |first|] in rest; }
    OrderLater(order, (first + rest)[i], (first + rest)[j]);
  }

  function FirstKid(fr: Frame, keep: set<nat>, order: seq<nat>, parent: Option<nat>): seq<nat> {
    if order != [] && order[0] in keep && order[0] in fr.tree && fr.tree[order[0]].parent == parent
    then [order[0]] else []
  }

  lemma {:induction false} KidsUnfold(fr: Frame, keep: set<nat>, order: seq<nat>, parent: Option<nat>)
    requires KidsOf(fr, keep, order, parent) != []
    ensures order != [] && FirstKid(fr, keep, order, parent) <= order[..1]
    ensures KidsOf(fr, keep, order, parent)
         == FirstKid(fr, keep, order, parent) + KidsOf(fr, keep, order[1..], parent)
    ensures forall y :: y in KidsOf(fr, keep, order[1..], parent) ==> y in order[1..]
  {}

  lemma {:induction false} KidsInOrder(fr: Frame, keep: set<nat>, order: seq<nat>, parent: Option<nat>, i: nat, j: nat)
    requires i < j < |KidsOf(fr, keep, order, parent)|
    ensures var kids := KidsOf(fr, keep, order, parent); InOrder(order, kids[i], kids[j])
  {
    hide *;
    KidsUnfold(fr, keep, order, parent);
    var first, rest := FirstKid(fr, keep, order, parent), KidsOf(fr, keep, order[1..], parent);
    if i >= |first| { KidsInOrder(fr, keep, order[1..], parent, i - |first|, j - |first|); }
    OrderStep(order, first, rest, i, j);
  }

  lemma {:induction false} SortedJoin(fr: Frame, a: seq<seq<nat>>, b: seq<seq<nat>>)
    requires Sorted(fr, a) && Sorted(fr, b) && forall c, d :: c in a && d in b ==> Precedes(fr, c, d)
    ensures Sorted(fr, a + b)
  {
    hide Precedes;
    forall i, j | 0 <= i < j < |a + b| ensures Precedes(fr, (a + b)[i], (a + b)[j]) {
      if i < |a| <= j { assert (a + b)[i] in a && (a + b)[j] in b; }
    }
  }

  ghost predicate Rising(fr: Frame, kids: seq<nat>) {
    forall i, j :: 0 <= i < j < |kids| ==> InOrder(fr.order, kids[i], kids[j])
  }

  lemma {:induction false} FromSorted(fr: Frame, keep: set<nat>, chain: seq<nat>)
    requires Staged(fr) && Chain(fr, chain)
    ensures Sorted(fr, EmitFrom(fr, keep, chain))
    decreases |fr.tree| - |chain|, 1, 0
  {
    ChainShort(fr, chain);
    var kids := Kids(fr, keep, chain);
    forall i, j | 0 <= i < j < |kids| ensures InOrder(fr.order, kids[i], kids[j]) {
      KidsInOrder(fr, keep, fr.order, Last(chain), i, j);
    }
    hide Chain, InOrder, EmitKids;
    KidsSorted(fr, keep, chain, kids);
    forall d | d in EmitKids(fr, keep, chain, kids) ensures Precedes(fr, chain, d) {
      EmitKidsMember(fr, keep, chain, kids, d);
    }
    SortedJoin(fr, [chain], EmitKids(fr, keep, chain, kids));
  }

  lemma {:induction false} KidsSorted(fr: Frame, keep: set<nat>, chain: seq<nat>, kids: seq<nat>)
    requires Staged(fr) && Chain(fr, chain) && KidList(fr, chain, kids) && Rising(fr, kids)
    ensures Sorted(fr, EmitKids(fr, keep, chain, kids))
    decreases |fr.tree| - |chain|, 0, |kids|
  {
    hide Chain, KidList, InOrder, Precedes;
    if kids != [] {
      var k := kids[0];
      KidListTail(fr, chain, kids);
      ChainExtends(fr, chain, k);
      ChainShort(fr, chain + [k]);
      FromSorted(fr, keep, chain + [k]);
      KidsSorted(fr, keep, chain, kids[1..]);
      forall c, d | c in EmitFrom(fr, keep, chain + [k]) && d in EmitKids(fr, keep, chain, kids[1..])
        ensures Precedes(fr, c, d)
      {
        Across(fr, keep, chain, kids, c, d);
      }
      SortedJoin(fr, EmitFrom(fr, keep, chain + [k]), EmitKids(fr, keep, chain, kids[1..]));
    }
  }

  lemma {:induction false} Across(fr: Frame, keep: set<nat>, chain: seq<nat>, kids: seq<nat>, c: seq<nat>, d: seq<nat>)
    requires Staged(fr) && Chain(fr, chain) && KidList(fr, chain, kids) && Rising(fr, kids) && kids != []
    requires Chain(fr, chain + [kids[0]]) && KidList(fr, chain, kids[1..])
    requires c in EmitFrom(fr, keep, chain + [kids[0]]) && d in EmitKids(fr, keep, chain, kids[1..])
    ensures Precedes(fr, c, d)
  {
    hide Chain, KidList, EmitFrom, EmitKids, Staged, InOrder;
    EmitFromMember(fr, keep, chain + [kids[0]], c);
    EmitKidsMember(fr, keep, chain, kids[1..], d);
    var j :| 0 <= j < |kids[1..]| && kids[1..][j] == d[|chain|];
    assert InOrder(fr.order, kids[0], kids[j + 1]);
    assert c[|chain|] == kids[0] && c[..|chain|] == chain == d[..|chain|];
  }

  /** Rows are emitted in document order, each in front of what hangs below it. */
  lemma {:induction false} EmittedInOrder(fr: Frame, i: nat, j: nat)
    requires Staged(fr) && i < j < |Emission(fr, KeptIds(fr))|
    ensures var e := Emission(fr, KeptIds(fr)); Precedes(fr, e[i], e[j])
  {
    var keep := KeptIds(fr);
    var kids := Kids(fr, keep, []);
    forall i, j | 0 <= i < j < |kids| ensures InOrder(fr.order, kids[i], kids[j]) {
      KidsInOrder(fr, keep, fr.order, None, i, j);
    }
    hide Precedes, KeptIds, EmitKids;
    KidsSorted(fr, keep, [], kids);
  }

  lemma {:induction false} SamePlace(c: seq<nat>, d: seq<nat>, k: nat, m: nat)
    requires k < |c| && k < |d| && m < |c| && m < |d| && c[..k] == d[..k] && c[..m] == d[..m]
    requires c[k] != d[k] && c[m] != d[m]
    ensures k == m
  {
    assert forall i :: 0 <= i < k ==> c[i] == c[..k][i] == d[..k][i] == d[i];
    assert forall i :: 0 <= i < m ==> c[i] == c[..m][i] == d[..m][i] == d[i];
  }

  lemma {:induction false} NotBelow(c: seq<nat>, d: seq<nat>, k: nat)
    requires k < |c| && k < |d| && c[k] != d[k]
    ensures !(d < c)
  {}

  lemma {:induction false} OrderIsStrict(fr: Frame, x: nat, y: nat)
    requires Staged(fr) && InOrder(fr.order, x, y)
    ensures x != y && !InOrder(fr.order, y, x)
  {}

  /** Two paths precede one another in one way only, so the order is fixed. */
  lemma {:induction false} OneWay(fr: Frame, c: seq<nat>, d: seq<nat>)
    requires Staged(fr) && Precedes(fr, c, d)
    ensures !Precedes(fr, d, c)
  {
    hide InOrder;
    forall x, y | InOrder(fr.order, x, y) ensures x != y && !InOrder(fr.order, y, x) { OrderIsStrict(fr, x, y); }
    if !(c < d) {
      var k :| 0 <= k < |c| && k < |d| && c[..k] == d[..k] && InOrder(fr.order, c[k], d[k]);
      forall m | 0 <= m < |d| && m < |c| && d[..m] == c[..m] ensures !InOrder(fr.order, d[m], c[m]) {
        if c[m] != d[m] { SamePlace(c, d, k, m); }
      }
      NotBelow(c, d, k);
    }
  }

  // ----------------------------------------------------------------- contents

  /** A bare cross reference, or a row with a part number, a quantity that can be read and a name. */
  ghost predicate Publishes(r: RawRow) {
    || (r.name == "" && r.qty == "" && (r.callout == r.pn || r.callout == r.pnDisplay))
    || (r.pn != "" && r.name != "" && QuantityOf(r.qty).Some?)
  }

  lemma {:induction false} KeptIfPublishes(r: RawRow)
    ensures Classify(r).valid || Classify(r).xref <==> Publishes(r)
  {
    hide QuantityOf;
  }

  lemma {:induction false} SomeRowKept(rows: seq<RawRow>)
    ensures KeptRows(rows) != [] <==> exists r :: r in rows && Publishes(r)
  {
    hide Classify, Publishes;
    if rows != [] {
      SomeRowKept(rows[1..]);
      KeptIfPublishes(rows[0]);
      assert rows == [rows[0]] + rows[1..];
    }
  }

  lemma {:induction false} SomeSectionKept(sections: seq<Section>)
    ensures KeptSections(sections) != [] <==>
              exists s, r :: s in sections && s.imageExists && r in s.rows && Publishes(r)
  {
    hide KeptRows, Publishes;
    if sections != [] {
      SomeSectionKept(sections[1..]);
      SomeRowKept(sections[0].rows);
      assert sections == [sections[0]] + sections[1..];
    }
  }

  /** What is served: the leaves with a good page and, in a section with an image, a row to publish. */
  lemma {:induction false} ServedExactly(fr: Frame, t: nat)
    ensures Servable(fr, t) <==>
              && t in fr.tree && fr.tree[t].isLeaf && fr.tree[t].pageOk
              && exists s, r :: s in fr.tree[t].sections && s.imageExists && r in s.rows && Publishes(r)
  {
    hide KeptSections, Publishes;
    if t in fr.tree { SomeSectionKept(fr.tree[t].sections); }
  }

  /** Everything a row of `nodes` says of the staged row `t` that it shows. */
  ghost predicate Tells(b: Build, rows: seq<NodeRow>, r: NodeRow, t: nat) {
    && r.tree == Some(t) && t in b.frame.tree && r.frame == b.frame.code
    && r.title == TitleOf(b.frame, b.keep, t) && (r.leaf <==> Servable(b.frame, t)) && (r.leaf <==> r.group.Some?)
    && r.parentId.Some? && r.id == r.parentId.value + "/" + r.title
    && (exists c :: Chain(b.frame, c) && Last(c) == Some(t) && r.depth == |c|)
    && match b.frame.tree[t].parent
       case None => r.parentId == Some(b.root) && r.depth == 1
       case Some(p) =>
         exists q :: q in rows && q.tree == Some(p) && r.parentId == Some(q.id) && r.depth == q.depth + 1
  }

  lemma {:induction false} RowColumns(b: Build, path: seq<nat>, group: nat)
    requires path != []
    ensures var r, n := RowOf(b, path, group), |path| - 1;
            && r.tree == Some(path[n]) && r.frame == b.frame.code && r.title == TitleOf(b.frame, b.keep, path[n])
            && (r.leaf <==> Servable(b.frame, path[n])) && (r.group == if r.leaf then Some(group) else None)
            && r.parentId == Some(PathOf(b, path[..n])) && r.id == PathOf(b, path[..n]) + "/" + r.title
            && r.depth == |path|
  {
    hide TitleOf, Servable;
  }

  /** Each row but the root's tells of one staged row, below the row of that one's parent. */
  lemma {:induction false} RowsTell(b: Build, k: nat)
    requires Genuine(b) && 0 < k < |FrameRows(b)|
    ensures var rows := FrameRows(b);
            && rows[0] == NodeRow(b.root, None, b.frame.code, 0, false, None, None, b.frame.code)
            && rows[k].tree.Some? && Tells(b, rows, rows[k], rows[k].tree.value)
  {
    hide *;
    RootShown(b, k);
    FrameRowsShape(b, k);
    var rows, path := FrameRows(b), b.paths[k - 1];
    assert path in b.paths;
    GenuinePath(b, path);
    RowColumns(b, path, b.next + Groups(b, k - 1));
    PathTells(b, rows, path, rows[k]);
  }

  lemma {:induction false} RootShown(b: Build, k: nat)
    requires k < |FrameRows(b)|
    ensures FrameRows(b)[0] == NodeRow(b.root, None, b.frame.code, 0, false, None, None, b.frame.code)
  {
    hide AnyServable, NodeRows;
  }

  lemma {:induction false} PathTells(b: Build, rows: seq<NodeRow>, path: seq<nat>, r: NodeRow)
    requires Genuine(b) && rows == FrameRows(b) && path in b.paths && path != [] && Chain(b.frame, path)
    requires var n := |path| - 1;
             && r.tree == Some(path[n]) && r.frame == b.frame.code && r.title == TitleOf(b.frame, b.keep, path[n])
             && (r.leaf <==> Servable(b.frame, path[n])) && (r.leaf <==> r.group.Some?)
             && r.parentId == Some(PathOf(b, path[..n])) && r.id == PathOf(b, path[..n]) + "/" + r.title
             && r.depth == |path|
    ensures Tells(b, rows, r, path[|path| - 1])
  {
    var n := |path| - 1;
    assert Last(path) == Some(path[n]) && path[n] in b.frame.tree && b.frame.tree[path[n]].parent == Last(path[..n]);
    if n > 0 {
      hide *;
      var j := ParentShown(b, path);
      assert rows[j] in rows;
      JoinsParent(b, rows, path, r, rows[j]);
    } else {
      assert path[..0] == [] && PathOf(b, path[..0]) == b.root;
      hide TitleOf, Servable, FrameRows, Genuine, Chain;
    }
  }

  lemma {:induction false} JoinsParent(b: Build, rows: seq<NodeRow>, path: seq<nat>, r: NodeRow, q: NodeRow)
    requires |path| > 1 && Chain(b.frame, path) && path[|path| - 1] in b.frame.tree && q in rows
    requires var n := |path| - 1;
             && r.tree == Some(path[n]) && r.frame == b.frame.code && r.title == TitleOf(b.frame, b.keep, path[n])
             && (r.leaf <==> Servable(b.frame, path[n])) && (r.leaf <==> r.group.Some?)
             && r.parentId == Some(PathOf(b, path[..n])) && r.id == PathOf(b, path[..n]) + "/" + r.title
             && r.depth == |path|
             && q.id == PathOf(b, path[..n]) && q.tree == Last(path[..n]) && q.depth == n
    ensures Tells(b, rows, r, path[|path| - 1])
  {
    var n := |path| - 1;
    assert b.frame.tree[path[n]].parent == Last(path[..n]) && Last(path) == Some(path[n]);
    hide TitleOf, Servable, PathOf, Chain;
  }

  lemma {:induction false} ParentShown(b: Build, path: seq<nat>) returns (j: nat)
    requires Genuine(b) && path in b.paths && |path| > 1
    ensures j < |FrameRows(b)| && FrameRows(b)[j].id == PathOf(b, path[..|path| - 1])
    ensures FrameRows(b)[j].tree == Last(path[..|path| - 1]) && FrameRows(b)[j].depth == |path| - 1
  {
    hide *;
    UpEmitted(b, path);
    var i := FoundAt(b.paths, path[..|path| - 1]);
    ShownAs(b, path[..|path| - 1], i);
    j := i + 1;
  }

  lemma {:induction false} FoundAt(paths: seq<seq<nat>>, path: seq<nat>) returns (i: nat)
    requires path in paths
    ensures i < |paths| && paths[i] == path
  {
    i :| 0 <= i < |paths| && paths[i] == path;
  }

  lemma {:induction false} ShownAs(b: Build, path: seq<nat>, i: nat)
    requires Genuine(b) && path != [] && i < |b.paths| && b.paths[i] == path
    ensures i + 1 < |FrameRows(b)| && FrameRows(b)[i + 1].id == PathOf(b, path)
    ensures FrameRows(b)[i + 1].tree == Last(path) && FrameRows(b)[i + 1].depth == |path|
    ensures ServedPath(b, path) ==> FrameRows(b)[i + 1].group == Some(b.next + Groups(b, i))
  {
    hide *;
    PathShown(b, i);
    RowNamed(b, path, b.next + Groups(b, i));
  }

  lemma {:induction false} RowNamed(b: Build, path: seq<nat>, group: nat)
    requires path != []
    ensures RowOf(b, path, group).id == PathOf(b, path) && RowOf(b, path, group).tree == Last(path)
    ensures RowOf(b, path, group).depth == |path|
    ensures ServedPath(b, path) ==> RowOf(b, path, group).group == Some(group)
  {
    hide TitleOf, Servable, PathOf;
  }

  lemma {:induction false} UpEmitted(b: Build, path: seq<nat>)
    requires Genuine(b) && path in b.paths && |path| > 1
    ensures path[..|path| - 1] in b.paths
  {
    hide Genuine, Kept, Chain;
    var up := path[..|path| - 1];
    GenuinePath(b, path);
    GenuinePath(b, up);
    ChainPrefix(b.frame, path, |up|);
    KeptChain(b.frame, path, |up| - 1);
    assert path[|up| - 1] == up[|up| - 1];
  }

  /** The row of a path and the group at `at` name each other. */
  ghost predicate Paired(r: NodeRow, groups: seq<Group>, at: nat, next: nat) {
    && at < |groups| && groups[at].id == next + at && r.group == Some(next + at) && groups[at].nodeId == r.id
  }

  /** The groups of a frame are numbered from the first free id, in the order of their rows. */
  lemma {:induction false} GroupsInOrder(b: Build, i: nat, j: nat) returns (m: nat, n: nat)
    requires Genuine(b) && i < j < |b.paths| && ServedPath(b, b.paths[i]) && ServedPath(b, b.paths[j])
    ensures m < n && j + 1 < |FrameRows(b)|
    ensures Paired(FrameRows(b)[i + 1], FrameGroups(b), m, b.next)
    ensures Paired(FrameRows(b)[j + 1], FrameGroups(b), n, b.next)
  {
    hide *;
    GroupAt(b, i);
    GroupAt(b, j);
    GroupRowsAt(b, j, i);
    m, n := Groups(b, i), Groups(b, j);
  }

  lemma {:induction false} GroupAt(b: Build, i: nat)
    requires Genuine(b) && i < |b.paths| && ServedPath(b, b.paths[i])
    ensures i + 1 < |FrameRows(b)| && Paired(FrameRows(b)[i + 1], FrameGroups(b), Groups(b, i), b.next)
  {
    hide *;
    GroupListed(b, i);
    ShownAs(b, b.paths[i], i);
    Pairs(FrameRows(b)[i + 1], FrameGroups(b), Groups(b, i), b.next);
  }

  lemma {:induction false} GroupListed(b: Build, i: nat)
    requires i < |b.paths| && ServedPath(b, b.paths[i])
    ensures b.paths[i] != [] && Groups(b, i) < |FrameGroups(b)|
    ensures FrameGroups(b)[Groups(b, i)].id == b.next + Groups(b, i)
    ensures FrameGroups(b)[Groups(b, i)].nodeId == PathOf(b, b.paths[i])
  {
    hide *;
    GroupIs(b, b.paths[i], b.next + Groups(b, i));
    GroupRowsAt(b, |b.paths|, i);
    AsGroups(b);
  }

  lemma {:induction false} Pairs(r: NodeRow, groups: seq<Group>, at: nat, next: nat)
    requires at < |groups| && groups[at].id == next + at && r.group == Some(next + at) && groups[at].nodeId == r.id
    ensures Paired(r, groups, at, next)
  {}

  lemma {:induction false} AsGroups(b: Build)
    ensures FrameGroups(b) == GroupRows(b, |b.paths|)
  {}

  lemma {:induction false} GroupIs(b: Build, path: seq<nat>, group: nat)
    requires ServedPath(b, path)
    ensures path != [] && GroupOf(b, path, group).id == group && GroupOf(b, path, group).nodeId == PathOf(b, path)
  {
    hide PathOf, Servable;
  }
}
