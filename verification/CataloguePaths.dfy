/**
  Titles as addresses: when the paths of a build are distinct, so that its rows fit the primary
  key, and walking a finished catalogue down by titles and back up.
*/
module CataloguePaths {
  import opened Wrappers
  import opened Parts
  import opened Catalogue

  // ------------------------------------------------------------ distinct paths

  ghost predicate Shown(fr: Frame, t: nat) {
    Kept(fr, t) && ReachesTop(fr, t)
  }

  /** No two emitted siblings have the same display title. */
  ghost predicate SiblingsDiffer(fr: Frame) {
    forall t, u :: Shown(fr, t) && Shown(fr, u) && t != u && fr.tree[t].parent == fr.tree[u].parent ==>
      TitleOf(fr, KeptIds(fr), t) != TitleOf(fr, KeptIds(fr), u)
  }

  /** The titles on the way down from a path's end, each behind a slash. */
  ghost function Spelled(b: Build, way: seq<nat>): string {
    if way == [] then "" else Child("", TitleOf(b.frame, b.keep, way[0])) + Spelled(b, way[1..])
  }

  /** A title goes on with a slash where another one ends. */
  ghost predicate Spills(s: string, t: string) {
    s + "/" <= t
  }

  ghost predicate PartAt(p: seq<nat>, q: seq<nat>, k: nat) {
    k < |p| && k < |q| && p[..k] == q[..k] && p[k] != q[k]
  }

  /** The title of the row at `k` of a path, and what the path spells below it. */
  ghost function From(b: Build, p: seq<nat>, k: nat): string
    requires k < |p|
  {
    TitleOf(b.frame, b.keep, p[k]) + Spelled(b, p[k + 1..])
  }

  ghost predicate SpillAt(b: Build, p: seq<nat>, q: seq<nat>, k: nat) {
    PartAt(p, q, k) && Spills(TitleOf(b.frame, b.keep, p[k]), TitleOf(b.frame, b.keep, q[k]))
  }

  /** Where a sibling's title goes on after another's, no way down from the two spells the same titles. */
  ghost predicate SpillsClear(b: Build) {
    forall p, q, k: nat :: p in b.paths && q in b.paths && SpillAt(b, p, q, k) ==> From(b, p, k) != From(b, q, k)
  }

  /** No emitted sibling's title goes on with a slash where another's ends. */
  ghost predicate NoSpills(fr: Frame) {
    forall t, u :: Shown(fr, t) && Shown(fr, u) && t != u && fr.tree[t].parent == fr.tree[u].parent ==>
      !Spills(TitleOf(fr, KeptIds(fr), t), TitleOf(fr, KeptIds(fr), u))
  }

  ghost predicate SlashFirst(s: string) {
    s != "" ==> s[0] == '/'
  }

  lemma {:induction false} SpelledSlashFirst(b: Build, way: seq<nat>)
    ensures SlashFirst(Spelled(b, way)) && (Spelled(b, way) == "" <==> way == [])
  {
    hide TitleOf;
  }

  /** Different names that are made equal by what follows them: one of them goes on where the other ends. */
  lemma {:induction false} OneSpills(s: string, x: string, t: string, y: string)
    requires s + x == t + y && s != t && SlashFirst(x) && SlashFirst(y)
    ensures Spills(s, t) || Spills(t, s)
  {
    var w := s + x;
    assert w[..|s|] == s && w[..|t|] == t;
    if |s| < |t| {
      assert w[|s|] == x[0] && t[|s|] == w[|s|];
      assert t[..|s| + 1] == s + "/";
    } else if |t| < |s| {
      assert w[|t|] == y[0] && s[|t|] == w[|t|];
      assert s[..|t| + 1] == t + "/";
    }
  }

  lemma {:induction false} PathSplit(b: Build, up: seq<nat>, way: seq<nat>)
    ensures PathOf(b, up + way) == PathOf(b, up) + Spelled(b, way)
    decreases |way|
  {
    hide TitleOf;
    if way == [] {
      assert up + way == up;
    } else {
      var next := up + [way[0]];
      assert next[..|next| - 1] == up && next + way[1..] == up + way;
      PathSplit(b, next, way[1..]);
    }
  }

  /** Two paths part at one place, or one of them goes on from the other. */
  lemma {:induction false} PartSomewhere(p: seq<nat>, q: seq<nat>) returns (k: nat)
    requires p != q
    ensures k <= |p| && k <= |q| && p[..k] == q[..k] && (k == |p| || k == |q| || p[k] != q[k])
  {
    k := 0;
    while k < |p| && k < |q| && p[k] == q[k]
      invariant k <= |p| && k <= |q| && p[..k] == q[..k]
    {
      k := k + 1;
    }
  }

  /** A path that goes on from another is longer. */
  lemma {:induction false} LongerDiffers(b: Build, p: seq<nat>, q: seq<nat>)
    requires p < q
    ensures PathOf(b, p) != PathOf(b, q)
  {
    assert q == p + q[|p|..];
    PathSplit(b, p, q[|p|..]);
    SpelledSlashFirst(b, q[|p|..]);
  }

  /** What a path spells from the place `k` on. */
  lemma {:induction false} PathFrom(b: Build, p: seq<nat>, k: nat)
    requires k < |p|
    ensures PathOf(b, p) == PathOf(b, p[..k]) + "/" + From(b, p, k)
  {
    hide TitleOf, PathOf;
    assert p == p[..k] + p[k..] && p[k..][0] == p[k] && p[k..][1..] == p[k + 1..];
    PathSplit(b, p[..k], p[k..]);
    assert Spelled(b, p[k..]) == "/" + From(b, p, k);
  }

  /** Paths that part are equal exactly when what they spell from there on is. */
  lemma {:induction false} PartedPaths(b: Build, p: seq<nat>, q: seq<nat>, k: nat)
    requires PartAt(p, q, k)
    ensures PathOf(b, p) == PathOf(b, q) <==> From(b, p, k) == From(b, q, k)
  {
    hide PathOf, From;
    PathFrom(b, p, k);
    PathFrom(b, q, k);
    SameFront(PathOf(b, p[..k]) + "/", From(b, p, k), From(b, q, k));
  }

  lemma {:induction false} SameFront(up: string, x: string, y: string)
    ensures up + x == up + y <==> x == y
  {
    assert (up + x)[|up|..] == x && (up + y)[|up|..] == y;
  }

  lemma {:induction false} ShownPrefix(b: Build, path: seq<nat>)
    requires Genuine(b) && path in b.paths
    ensures path != [] && Shown(b.frame, path[|path| - 1])
    ensures |path| > 1 ==> path[..|path| - 1] in b.paths
  {
    hide Genuine;
    GenuinePath(b, path);
    assert Last(path) == Some(path[|path| - 1]);
    if |path| > 1 {
      var up := path[..|path| - 1];
      ChainPrefix(b.frame, path, |path| - 1);
      KeptChain(b.frame, path, |path| - 2);
      GenuinePath(b, up);
    }
  }

  /** Every row on an emitted path is emitted. */
  lemma {:induction false} ShownOnPath(b: Build, path: seq<nat>, k: nat)
    requires Genuine(b) && path in b.paths && k < |path|
    ensures Shown(b.frame, path[k])
    decreases |path|
  {
    hide *;
    ShownPrefix(b, path);
    if k < |path| - 1 {
      var up := path[..|path| - 1];
      ShownOnPath(b, up, k);
      assert up[k] == path[k];
    }
  }

  lemma {:induction false} PathUnfolds(b: Build, p: seq<nat>)
    requires Genuine(b) && p in b.paths
    ensures p != [] && Shown(b.frame, p[|p| - 1])
    ensures PathOf(b, p) == Child(PathOf(b, p[..|p| - 1]), TitleOf(b.frame, KeptIds(b.frame), p[|p| - 1]))
    ensures p[..|p| - 1] == [] || p[..|p| - 1] in b.paths
    ensures Chain(b.frame, p)
  {
    assert b.keep == KeptIds(b.frame);
    GenuinePath(b, p);
    ShownPrefix(b, p);
    hide Genuine, Shown, TitleOf, KeptIds;
    assert p[..|p| - 1] == [] || p[..|p| - 1] in b.paths;
  }

  /** Where two emitted paths part, they do so at two siblings of the tree. */
  lemma {:induction false} PartAtSiblings(b: Build, p: seq<nat>, q: seq<nat>, k: nat)
    requires Genuine(b) && p in b.paths && q in b.paths && PartAt(p, q, k)
    ensures Shown(b.frame, p[k]) && Shown(b.frame, q[k]) && b.frame.tree[p[k]].parent == b.frame.tree[q[k]].parent
  {
    ShownOnPath(b, p, k);
    ShownOnPath(b, q, k);
    GenuinePath(b, p);
    GenuinePath(b, q);
    hide Genuine, KeptIds;
  }

  /** Different emitted paths spell different strings. */
  lemma {:induction false} PathsDiffer(b: Build, p: seq<nat>, q: seq<nat>)
    requires Genuine(b) && SiblingsDiffer(b.frame) && SpillsClear(b)
    requires (p == [] || p in b.paths) && (q == [] || q in b.paths) && p != q
    ensures PathOf(b, p) != PathOf(b, q)
  {
    var k := PartSomewhere(p, q);
    if k == |p| {
      assert p < q;
      LongerDiffers(b, p, q);
    } else if k == |q| {
      assert q < p;
      LongerDiffers(b, q, p);
    } else {
      PartedApart(b, p, q, k);
    }
  }

  lemma {:induction false} PartedApart(b: Build, p: seq<nat>, q: seq<nat>, k: nat)
    requires Genuine(b) && SiblingsDiffer(b.frame) && SpillsClear(b)
    requires p in b.paths && q in b.paths && PartAt(p, q, k)
    ensures PathOf(b, p) != PathOf(b, q)
  {
    hide Genuine, SiblingsDiffer, PathOf, From, SpillAt;
    PartedPaths(b, p, q, k);
    if From(b, p, k) == From(b, q, k) { EqualWaysSpill(b, p, q, k); }
  }

  lemma {:induction false} EqualWaysSpill(b: Build, p: seq<nat>, q: seq<nat>, k: nat)
    requires Genuine(b) && SiblingsDiffer(b.frame) && p in b.paths && q in b.paths
    requires PartAt(p, q, k) && From(b, p, k) == From(b, q, k)
    ensures SpillAt(b, p, q, k) || SpillAt(b, q, p, k)
  {
    assert b.keep == KeptIds(b.frame);
    PartAtSiblings(b, p, q, k);
    var s, t := TitleOf(b.frame, b.keep, p[k]), TitleOf(b.frame, b.keep, q[k]);
    assert s != t;
    hide Genuine, SiblingsDiffer, TitleOf, KeptIds, Spelled, Spills, SlashFirst, Shown;
    SpelledSlashFirst(b, p[k + 1..]);
    SpelledSlashFirst(b, q[k + 1..]);
    OneSpills(s, Spelled(b, p[k + 1..]), t, Spelled(b, q[k + 1..]));
  }

  /**
    Exactly when a build gets past the primary key: sibling titles differ, and where one goes on
    with a slash after another, the titles below the two do not make up for it.
  */
  lemma {:induction false} BuildFitsKey(b: Build)
    requires Genuine(b)
    ensures DistinctIds(FrameRows(b)) <==> SiblingsDiffer(b.frame) && SpillsClear(b)
  {
    hide Genuine, SiblingsDiffer, SpillsClear, FrameRows;
    if SiblingsDiffer(b.frame) && SpillsClear(b) {
      var rows := FrameRows(b);
      forall i, j | 0 <= i < j < |rows| ensures rows[i].id != rows[j].id {
        RowId(b, i);
        RowId(b, j);
        PathsOnce(b, i, j);
        PathsDiffer(b, PathAt(b, i), PathAt(b, j));
      }
    }
    if DistinctIds(FrameRows(b)) {
      KeyedSiblings(b);
      KeyedSpills(b);
    }
  }

  /** The guard to look at first: when no sibling's title goes on after another's, differing is enough. */
  lemma {:induction false} PlainSiblingsFit(b: Build)
    requires Genuine(b) && SiblingsDiffer(b.frame) && NoSpills(b.frame)
    ensures DistinctIds(FrameRows(b))
  {
    forall p, q, k: nat | p in b.paths && q in b.paths && PartAt(p, q, k) ensures !SpillAt(b, p, q, k) {
      PartAtSiblings(b, p, q, k);
    }
    hide Genuine, SiblingsDiffer, NoSpills, FrameRows;
    BuildFitsKey(b);
  }

  lemma {:induction false} KeyedPaths(b: Build, p: seq<nat>, q: seq<nat>)
    requires Genuine(b) && DistinctIds(FrameRows(b)) && p in b.paths && q in b.paths && p != q
    ensures PathOf(b, p) != PathOf(b, q)
  {
    hide Genuine, FrameRows, PathOf;
    var i := RowOfPath(b, p);
    var j := RowOfPath(b, q);
    assert FrameRows(b)[i].id != FrameRows(b)[j].id;
  }

  lemma {:induction false} KeyedSpills(b: Build)
    requires Genuine(b) && DistinctIds(FrameRows(b))
    ensures SpillsClear(b)
  {
    hide Genuine, FrameRows, DistinctIds, PathOf, From, Spills;
    forall p, q, k: nat | p in b.paths && q in b.paths && SpillAt(b, p, q, k) ensures From(b, p, k) != From(b, q, k) {
      KeyedPaths(b, p, q);
      PartedPaths(b, p, q, k);
    }
  }

  lemma {:induction false} RowOfPath(b: Build, path: seq<nat>) returns (k: nat)
    requires Genuine(b) && path in b.paths
    ensures 0 < k < |FrameRows(b)| && k <= |b.paths| && b.paths[k - 1] == path && FrameRows(b)[k].id == PathOf(b, path)
  {
    hide Genuine, FrameRows, Groups, TitleOf;
    var i :| 0 <= i < |b.paths| && b.paths[i] == path;
    PathShown(b, i);
    k := i + 1;
  }

  ghost function PathAt(b: Build, k: nat): seq<nat>
    requires k <= |b.paths|
  {
    if k == 0 then [] else b.paths[k - 1]
  }

  lemma {:induction false} RowId(b: Build, k: nat)
    requires k < |FrameRows(b)|
    ensures k <= |b.paths| && FrameRows(b)[k].id == PathOf(b, PathAt(b, k))
  {
    hide Genuine, FrameRows, Groups, TitleOf;
    FrameRowsShape(b, k);
  }

  lemma {:induction false} PathsOnce(b: Build, i: nat, j: nat)
    requires Genuine(b) && i < j <= |b.paths|
    ensures PathAt(b, i) != PathAt(b, j)
    ensures (PathAt(b, i) == [] || PathAt(b, i) in b.paths) && PathAt(b, j) in b.paths
  {
    EmissionDistinct(b.frame);
    hide Emission;
    assert b.paths[j - 1] in b.paths;
    GenuinePath(b, b.paths[j - 1]);
  }

  /** Whatever the titles: two siblings with one display title are stopped by the primary key. */
  lemma {:induction false} KeyedSiblings(b: Build)
    requires Genuine(b) && DistinctIds(FrameRows(b))
    ensures SiblingsDiffer(b.frame)
  {
    assert b.keep == KeptIds(b.frame);
    hide Genuine, FrameRows, DistinctIds, TitleOf, KeptIds, ReachesTop;
    forall t, u | Shown(b.frame, t) && Shown(b.frame, u) && t != u && b.frame.tree[t].parent == b.frame.tree[u].parent
      ensures TitleOf(b.frame, KeptIds(b.frame), t) != TitleOf(b.frame, KeptIds(b.frame), u)
    {
      var i := ShownIndex(b, t);
      var j := ShownIndex(b, u);
      SiblingPaths(b, t, u, i, j);
      KeyTells(b, t, u, i, j);
    }
  }

  ghost predicate ShownSiblings(fr: Frame, t: nat, u: nat) {
    t in fr.tree && u in fr.tree && fr.tree[t].parent == fr.tree[u].parent
  }

  lemma {:induction false} ShownIndex(b: Build, t: nat) returns (i: nat)
    requires Genuine(b) && Shown(b.frame, t)
    ensures i < |b.paths| && Last(b.paths[i]) == Some(t)
  {
    EmittedOnce(b.frame, t);
    i :| EmittedAt(b.paths, t, i);
  }

  lemma {:induction false} SiblingPaths(b: Build, t: nat, u: nat, i: nat, j: nat)
    requires Genuine(b) && i < |b.paths| && j < |b.paths|
    requires Last(b.paths[i]) == Some(t) && Last(b.paths[j]) == Some(u) && ShownSiblings(b.frame, t, u)
    ensures b.paths[i][..|b.paths[i]| - 1] == b.paths[j][..|b.paths[j]| - 1]
  {
    var p, q := b.paths[i], b.paths[j];
    assert p in b.paths && q in b.paths;
    GenuinePath(b, p);
    GenuinePath(b, q);
    ChainPrefix(b.frame, p, |p| - 1);
    ChainPrefix(b.frame, q, |q| - 1);
    ChainUnique(b.frame, p[..|p| - 1], q[..|q| - 1]);
  }

  lemma {:induction false} KeyTells(b: Build, t: nat, u: nat, i: nat, j: nat)
    requires Genuine(b) && DistinctIds(FrameRows(b)) && i < |b.paths| && j < |b.paths|
    requires Last(b.paths[i]) == Some(t) && Last(b.paths[j]) == Some(u) && t != u
    requires b.paths[i][..|b.paths[i]| - 1] == b.paths[j][..|b.paths[j]| - 1]
    ensures TitleOf(b.frame, b.keep, t) != TitleOf(b.frame, b.keep, u)
  {
    hide Genuine, FrameRows, TitleOf, Groups;
    PathShown(b, i);
    PathShown(b, j);
    var rows := FrameRows(b);
    assert i != j && rows[i + 1].id != rows[j + 1].id;
  }

  /** Siblings "A" and "A" with gids 5 and 6, next to an "A (5)" ... */
  function ClashFrame(): Frame {
    var pages := [Section("1", true, [RawRow("P", "P", "P", "", "")])];
    Frame("F", [0, 1, 2], map[0 := TreeRow(None, "A", Some(5), true, true, pages),
                              1 := TreeRow(None, "A", Some(6), true, true, pages),
                              2 := TreeRow(None, "A (5)", None, true, true, pages)])
  }

  /** ... : the first of them is renamed to the title of the third, and the primary key stops the build. */
  lemma {:induction false} RenamedSiblingsClash(root: string, next: nat)
    ensures var b := BuildOf(ClashFrame(), root, next);
            Genuine(b) && !DistinctIds(FrameRows(b))
  {
    var b := BuildOf(ClashFrame(), root, next);
    ClashSiblings();
    hide Staged, SiblingsDiffer, FrameRows, Emission, KeptIds;
    if DistinctIds(FrameRows(b)) { KeyedSiblings(b); }
  }

  lemma {:induction false} ClashSiblings()
    ensures Staged(ClashFrame()) && !SiblingsDiffer(ClashFrame())
  {
    hide Shown, Kept, KeptIds, TitleOf, SiblingsDiffer, Staged;
    ClashStaged();
    ClashKept();
    ClashShown(0);
    ClashShown(2);
    ClashTitles();
    SameTitles(ClashFrame(), 0, 2);
  }

  lemma {:induction false} ClashStaged()
    ensures Staged(ClashFrame())
  {}

  lemma {:induction false} ClashKept()
    ensures KeptIds(ClashFrame()) == {0, 1, 2}
  {
    hide Kept, Shown;
    ClashShown(0);
    ClashShown(1);
    ClashShown(2);
  }

  lemma {:induction false} SameTitles(fr: Frame, t: nat, u: nat)
    requires Shown(fr, t) && Shown(fr, u) && t != u && fr.tree[t].parent == fr.tree[u].parent
    requires TitleOf(fr, KeptIds(fr), t) == TitleOf(fr, KeptIds(fr), u)
    ensures !SiblingsDiffer(fr)
  {
    hide TitleOf, KeptIds, ReachesTop;
  }

  lemma {:induction false} ClashTitles()
    ensures TitleOf(ClashFrame(), {0, 1, 2}, 0) == TitleOf(ClashFrame(), {0, 1, 2}, 2)
  {
    var fr := ClashFrame();
    assert Decimal(5) == "5";
    assert 1 in {0, 1, 2} && SharesTitle(fr, {0, 1, 2}, 0);
    assert TitleOf(fr, {0, 1, 2}, 0) == "A" + " (" + "5" + ")" == "A (5)";
    assert !SharesTitle(fr, {0, 1, 2}, 2);
  }

  lemma {:induction false} ClashShown(t: nat)
    requires t < 3
    ensures Shown(ClashFrame(), t) && Kept(ClashFrame(), t)
  {
    var fr := ClashFrame();
    var xref := RawRow("P", "P", "P", "", "");
    var pages := [Section("1", true, [xref])];
    assert fr.tree[t].sections == pages;
    assert KeptRows([xref]) == [Published(xref, Classify(xref))];
    assert KeptSections(pages) == [Served(pages[0], KeptRows([xref]))];
    ServableKept(fr, t);
    assert Chain(fr, [t]) && Last([t]) == Some(t);
  }

  /** A folder "A" with a leaf "B/C", next to a folder "A/B" with a leaf "C" ... */
  function SlashFrame(): Frame {
    var pages := [Section("1", true, [RawRow("P", "P", "P", "", "")])];
    Frame("F", [0, 1, 2, 3], map[0 := TreeRow(None, "A", None, false, false, []),
                                 1 := TreeRow(Some(0), "B/C", None, true, true, pages),
                                 2 := TreeRow(None, "A/B", None, false, false, []),
                                 3 := TreeRow(Some(2), "C", None, true, true, pages)])
  }

  /** ... : all siblings differ, yet both leaves have one path and the primary key stops the build. */
  lemma {:induction false} SlashedTitlesClash(root: string, next: nat)
    ensures var b := BuildOf(SlashFrame(), root, next);
            Genuine(b) && SiblingsDiffer(SlashFrame()) && !DistinctIds(FrameRows(b))
  {
    var b := BuildOf(SlashFrame(), root, next);
    var p, q := [0, 1], [2, 3];
    hide *;
    SlashBuild(root, next);
    SlashSiblings();
    SlashPaths(b);
    if DistinctIds(FrameRows(b)) { KeyedPaths(b, p, q); }
  }

  lemma {:induction false} SlashBuild(root: string, next: nat)
    ensures var b := BuildOf(SlashFrame(), root, next);
            && Genuine(b) && b.frame == SlashFrame() && b.keep == {0, 1, 2, 3}
            && [0, 1] in b.paths && [2, 3] in b.paths
  {
    var b := BuildOf(SlashFrame(), root, next);
    SlashStaged();
    SlashKept();
    ChainOfTwo(b.frame, 0, 1);
    ChainOfTwo(b.frame, 2, 3);
    hide Staged, Emission, KeptIds, Kept, Chain;
    assert Genuine(b);
    GenuinePath(b, [0, 1]);
    GenuinePath(b, [2, 3]);
  }

  lemma {:induction false} SlashStaged()
    ensures Staged(SlashFrame())
  {}

  lemma {:induction false} SlashServable()
    ensures Servable(SlashFrame(), 1) && Servable(SlashFrame(), 3)
  {
    var xref := RawRow("P", "P", "P", "", "");
    var pages := [Section("1", true, [xref])];
    assert KeptRows([xref]) == [Published(xref, Classify(xref))];
    assert KeptSections(pages) == [Served(pages[0], KeptRows([xref]))];
  }

  lemma {:induction false} SlashKept()
    ensures KeptIds(SlashFrame()) == {0, 1, 2, 3} && Kept(SlashFrame(), 1) && Kept(SlashFrame(), 3)
  {
    var fr := SlashFrame();
    SlashServable();
    hide Servable, Kept;
    ServableKept(fr, 1);
    ServableKept(fr, 3);
    KeptAbove(fr, 1, 0);
    KeptAbove(fr, 3, 2);
  }

  lemma {:induction false} ChainOfTwo(fr: Frame, x: nat, y: nat)
    requires x in fr.tree && fr.tree[x].parent.None? && y in fr.tree && fr.tree[y].parent == Some(x)
    ensures Chain(fr, [x, y])
  {
    assert [x, y][..0] == [] && [x, y][..1] == [x];
  }

  lemma {:induction false} SlashTitles()
    ensures var fr, keep: set<nat> := SlashFrame(), {0, 1, 2, 3};
            && TitleOf(fr, keep, 0) == "A" && TitleOf(fr, keep, 1) == "B/C"
            && TitleOf(fr, keep, 2) == "A/B" && TitleOf(fr, keep, 3) == "C"
  {}

  lemma {:induction false} SlashPair(t: nat, u: nat)
    requires t < 4 && u < 4 && t != u && SlashFrame().tree[t].parent == SlashFrame().tree[u].parent
    ensures TitleOf(SlashFrame(), {0, 1, 2, 3}, t) != TitleOf(SlashFrame(), {0, 1, 2, 3}, u)
  {
    SlashTitles();
    hide TitleOf;
    assert (t == 0 && u == 2) || (t == 2 && u == 0);
    assert |"A"| != |"A/B"|;
  }

  lemma {:induction false} SlashSiblings()
    ensures SiblingsDiffer(SlashFrame())
  {
    var fr := SlashFrame();
    SlashKept();
    KeptAreKnown(fr);
    hide TitleOf, Shown, Kept, KeptIds;
    forall t, u | && Shown(fr, t) && Shown(fr, u) && t != u
                  && t in fr.tree && u in fr.tree && fr.tree[t].parent == fr.tree[u].parent
      ensures TitleOf(fr, {0, 1, 2, 3}, t) != TitleOf(fr, {0, 1, 2, 3}, u)
    {
      SlashPair(t, u);
    }
  }

  lemma {:induction false} KeptAreKnown(fr: Frame)
    ensures forall t :: Shown(fr, t) ==> t in KeptIds(fr)
  {}

  lemma {:induction false} TwoDeep(b: Build, x: nat, y: nat)
    ensures PathOf(b, [x, y]) == Child(Child(b.root, TitleOf(b.frame, b.keep, x)), TitleOf(b.frame, b.keep, y))
  {
    hide TitleOf, Child;
    assert [x, y][..1] == [x] && [x][..0] == [];
    assert PathOf(b, [x]) == Child(PathOf(b, []), TitleOf(b.frame, b.keep, x));
  }

  lemma {:induction false} SlashPaths(b: Build)
    requires b.frame == SlashFrame() && b.keep == {0, 1, 2, 3}
    ensures PathOf(b, [0, 1]) == PathOf(b, [2, 3])
  {
    SlashTitles();
    TwoDeep(b, 0, 1);
    TwoDeep(b, 2, 3);
    hide TitleOf, PathOf;
    assert Child(Child(b.root, "A"), "B/C") == b.root + "/A/B/C" == Child(Child(b.root, "A/B"), "C");
  }

  // ------------------------------------------------------- walking the catalogue

  /** The row with an id; ids are the primary key. */
  function ById(rows: seq<NodeRow>, id: string): Option<NodeRow> {
    if rows == [] then None else if rows[0].id == id then Some(rows[0]) else ById(rows[1..], id)
  }

  /** The first row under a parent with a title; siblings are inserted in sort order. */
  function FindChild(rows: seq<NodeRow>, parentId: string, title: string): Option<NodeRow> {
    if rows == [] then None
    else if rows[0].parentId == Some(parentId) && rows[0].title == title then Some(rows[0])
    else FindChild(rows[1..], parentId, title)
  }

  /** Following `seg` parameters down from `node`; None is the 404. */
  function Walk(rows: seq<NodeRow>, node: NodeRow, segs: seq<string>): Option<NodeRow>
    decreases |segs|
  {
    if segs == [] then Some(node)
    else
      var next := FindChild(rows, node.id, segs[0]);
      if next.None? then None else Walk(rows, next.value, segs[1..])
  }

  /** `p` is the parent row of `r`. */
  ghost predicate ParentRow(p: NodeRow, r: NodeRow) {
    r.parentId == Some(p.id) && r.id == Child(p.id, r.title) && r.depth == p.depth + 1
  }

  ghost predicate HasParent(rows: seq<NodeRow>, r: NodeRow) {
    exists p :: p in rows && ParentRow(p, r)
  }

  /** A finished tree: one root in front, and every other row under a row of the tree. */
  ghost predicate Tree(rows: seq<NodeRow>) {
    && DistinctIds(rows) && rows != []
    && rows[0].parentId.None? && rows[0].depth == 0
    && forall k :: 0 < k < |rows| ==> HasParent(rows, rows[k])
  }

  /** The titles from below the root down to `r`. */
  ghost function TitlesTo(rows: seq<NodeRow>, r: NodeRow): seq<string>
    requires Tree(rows) && r in rows
    decreases r.depth
  {
    if r.parentId.None? then []
    else
      var p := ParentOf(rows, r);
      TitlesTo(rows, p) + [r.title]
  }

  ghost function ParentOf(rows: seq<NodeRow>, r: NodeRow): (p: NodeRow)
    requires Tree(rows) && r in rows && r.parentId.Some?
    ensures p in rows && ParentRow(p, r) && ById(rows, r.parentId.value) == Some(p)
  {
    hide Tree;
    var p :| p in rows && ParentRow(p, r);
    ByIdFinds(rows, p);
    p
  }

  lemma {:induction false} ByIdFinds(rows: seq<NodeRow>, p: NodeRow)
    requires DistinctIds(rows) && p in rows
    ensures ById(rows, p.id) == Some(p)
  {
    if rows[0] != p {
      var k :| 0 <= k < |rows| && rows[k] == p;
      assert rows[1..][k - 1] == p;
      ByIdFinds(rows[1..], p);
    }
  }

  lemma {:induction false} FindChildSound(rows: seq<NodeRow>, parentId: string, title: string)
    ensures var r := FindChild(rows, parentId, title);
            if r.Some? then r.value in rows && r.value.parentId == Some(parentId) && r.value.title == title
            else forall c :: c in rows ==> !(c.parentId == Some(parentId) && c.title == title)
  {
    if rows != [] { FindChildSound(rows[1..], parentId, title); }
  }

  /** Under a row of the tree, the child with a title is the only one. */
  lemma {:induction false} ChildFound(rows: seq<NodeRow>, p: NodeRow, r: NodeRow)
    requires Tree(rows) && p in rows && r in rows && r.parentId == Some(p.id)
    ensures FindChild(rows, p.id, r.title) == Some(r)
  {
    FindChildSound(rows, p.id, r.title);
    var c := FindChild(rows, p.id, r.title).value;
    var x, y := ParentOf(rows, r), ParentOf(rows, c);
    assert c.id == r.id;
    ByIdFinds(rows, c);
    ByIdFinds(rows, r);
  }

  lemma {:induction false} WalkStep(rows: seq<NodeRow>, node: NodeRow, segs: seq<string>, s: string)
    ensures Walk(rows, node, segs + [s])
         == var m := Walk(rows, node, segs); if m.None? then None else FindChild(rows, m.value.id, s)
    decreases |segs|
  {
    if segs == [] {
      assert [] + [s] == [s] && [s][1..] == [];
    } else {
      assert (segs + [s])[1..] == segs[1..] + [s];
      var next := FindChild(rows, node.id, segs[0]);
      if next.Some? { WalkStep(rows, next.value, segs[1..], s); }
    }
  }

  lemma {:induction false} RootOnly(rows: seq<NodeRow>, r: NodeRow)
    requires Tree(rows) && r in rows
    ensures r.parentId.None? <==> r == rows[0]
  {
    if r != rows[0] {
      hide Tree;
      var p :| p in rows && ParentRow(p, r);
    }
  }

  /** Walking by titles reaches a row exactly by the titles of its breadcrumb. */
  lemma {:induction false} WalkIsBreadcrumb(rows: seq<NodeRow>, r: NodeRow, segs: seq<string>)
    requires Tree(rows) && r in rows
    ensures Walk(rows, rows[0], segs) == Some(r) <==> TitlesTo(rows, r) == segs
    decreases |segs|
  {
    hide ById, FindChild, Tree;
    RootOnly(rows, r);
    if segs != [] {
      var up, s := segs[..|segs| - 1], segs[|segs| - 1];
      assert segs == up + [s];
      WalkStep(rows, rows[0], up, s);
      if Walk(rows, rows[0], segs) == Some(r) {
        WalkStays(rows, up);
        var m := Walk(rows, rows[0], up).value;
        FindChildSound(rows, m.id, s);
        IdIsParent(rows, m, r);
        WalkIsBreadcrumb(rows, m, up);
      } else if r.parentId.Some? && TitlesTo(rows, r) == segs {
        var p := ParentOf(rows, r);
        assert TitlesTo(rows, p) == up;
        WalkIsBreadcrumb(rows, p, up);
        ChildFound(rows, p, r);
      }
    }
  }

  lemma {:induction false} IdIsParent(rows: seq<NodeRow>, m: NodeRow, r: NodeRow)
    requires Tree(rows) && m in rows && r in rows && r.parentId == Some(m.id)
    ensures ParentOf(rows, r) == m
  {
    var p := ParentOf(rows, r);
    ByIdFinds(rows, m);
  }

  lemma {:induction false} WalkStays(rows: seq<NodeRow>, segs: seq<string>)
    requires rows != [] && Walk(rows, rows[0], segs).Some?
    ensures Walk(rows, rows[0], segs).value in rows
    decreases |segs|
  {
    if segs != [] {
      var up, s := segs[..|segs| - 1], segs[|segs| - 1];
      assert segs == up + [s];
      WalkStep(rows, rows[0], up, s);
      FindChildSound(rows, Walk(rows, rows[0], up).value.id, s);
    }
  }

  /** What a build leaves is such a tree. */
  lemma {:induction false} BuildIsTree(b: Build)
    requires Genuine(b) && DistinctIds(FrameRows(b)) && FrameRows(b) != []
    ensures Tree(FrameRows(b))
  {
    hide Genuine, FrameRows, DistinctIds, HasParent;
    var rows := FrameRows(b);
    FrameRowsShape(b, 0);
    forall k | 0 < k < |rows| ensures HasParent(rows, rows[k]) {
      ParentEmitted(b, k);
    }
  }

  lemma {:induction false} ParentEmitted(b: Build, k: nat)
    requires Genuine(b) && 0 < k < |FrameRows(b)|
    ensures HasParent(FrameRows(b), FrameRows(b)[k])
  {
    hide Genuine, FrameRows, Groups, TitleOf, Shown, ServedPath, ParentRow;
    var rows := FrameRows(b);
    FrameRowsShape(b, k);
    FrameRowsShape(b, 0);
    var path := b.paths[k - 1];
    assert path in b.paths;
    PathUnfolds(b, path);
    var up := path[..|path| - 1];
    if |path| > 1 {
      var i :| 0 <= i < |b.paths| && b.paths[i] == up;
      PathShown(b, i);
      MeansParent(b, path, rows[i + 1], rows[k]);
      assert rows[i + 1] in rows;
    } else {
      assert up == [] && PathOf(b, []) == b.root;
      MeansParent(b, path, rows[0], rows[k]);
      assert rows[0] in rows;
    }
  }

  lemma {:induction false} MeansParent(b: Build, path: seq<nat>, p: NodeRow, r: NodeRow)
    requires path != []
    requires exists group :: r == RowOf(b, path, group)
    requires p.id == PathOf(b, path[..|path| - 1]) && p.depth == |path| - 1
    ensures ParentRow(p, r)
  {
    hide TitleOf;
  }

  /** Every servable leaf under the top can be opened by the titles on the way to it. */
  lemma {:induction false} LeafIsFound(b: Build, t: nat) returns (r: NodeRow, segs: seq<string>)
    requires Genuine(b) && DistinctIds(FrameRows(b)) && Servable(b.frame, t) && ReachesTop(b.frame, t)
    ensures Tree(FrameRows(b)) && r in FrameRows(b) && r.tree == Some(t) && r.leaf
    ensures segs == TitlesTo(FrameRows(b), r)
    ensures Walk(FrameRows(b), FrameRows(b)[0], segs) == Some(r)
  {
    hide Genuine, FrameRows, DistinctIds, Tree, Servable, ReachesTop, Groups, Walk, FindChild, TitlesTo, Kept, RowOf;
    ServableKept(b.frame, t);
    var i := ShownIndex(b, t);
    PathShown(b, i);
    assert FrameRows(b) != [];
    BuildIsTree(b);
    r := FrameRows(b)[i + 1];
    LeafRow(b, i, t, r, b.next + Groups(b, i));
    segs := TitlesTo(FrameRows(b), r);
    WalkIsBreadcrumb(FrameRows(b), r, segs);
  }

  lemma {:induction false} LeafRow(b: Build, i: nat, t: nat, r: NodeRow, group: nat)
    requires i < |b.paths| && Last(b.paths[i]) == Some(t) && Servable(b.frame, t)
    requires r == RowOf(b, b.paths[i], group)
    ensures r.tree == Some(t) && r.leaf
  {
    hide Servable, TitleOf, PathOf;
  }
}
