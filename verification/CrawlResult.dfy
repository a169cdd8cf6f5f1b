/**
  What a crawl leaves, said of the pages alone: the finished table column by column, the counters,
  and how far a run can get between two checkpoints.
*/
module CrawlResult {
  import opened Wrappers
  import opened Text
  import opened NodeTable
  import opened Crawl
  import opened Recovery
  import opened Harvest

  // ----------------------------------------------------------- the whole table

  /** The rows of a crawl in order: the index page, then the saved pages as `links` open them. */
  ghost predicate WholeChronicle(site: Site, links: seq<Link>, rows: seq<Row>) {
    match site.index
    case Unreadable => rows == [] && links == []
    case Page(own, dom, _) =>
      && |rows| >= 1 + |dom| && rows[0] == own && rows[1..1 + |dom|] == dom
      && Chronicle(site, {site.indexBase}, links, rows[1 + |dom|..])
  }

  lemma {:induction false} WholeInOrder(site: Site)
    ensures WholeChronicle(site, Dequeued(site, Seeded(site)), Remaining(site, EMPTY))
  {
    var f, first := Seeded(site), IndexRows(site);
    RowsInOrder(site, f);
    assert f.visited == {site.indexBase};
    var rows := Remaining(site, EMPTY);
    assert rows == first + RestRows(site, f);
    hide Chronicle;
    if site.index.Page? {
      assert rows[1..|first|] == first[1..] == site.index.dom;
      assert rows[|first|..] == RestRows(site, f);
    }
  }

  /** The role, kind and content the batch leaves at `p`, before they are corrected. */
  ghost predicate Raw(rows: seq<Row>, p: string, role: Option<NodeType>, kind: Option<FileType>,
                      content: Option<string>) {
    && LastWins(rows, p, (r: Row) => r.nodeType, None, role)
    && LastWins(rows, p, (r: Row) => r.fileType, None, kind)
    && LastWins(rows, p, (r: Row) => r.content, None, content)
  }

  /** An end page with pages below it is an intermediate one, and what it held is dropped. */
  ghost predicate Retyped(n: Node, kind: Option<FileType>, content: Option<string>, pageChild: bool) {
    if kind == Some(EndPath) && pageChild then n.fileType == Some(IntermediatePath) && n.content == None
    else n.fileType == kind && n.content == content
  }

  /** A leaf has nothing below it; a page nobody gave a role is a leaf or a folder. */
  ghost predicate Recast(n: Node, role: Option<NodeType>, kind: Option<FileType>, child: bool) {
    match role
    case Some(Root) => n.nodeType == Some(Root)
    case Some(Folder) => n.nodeType == Some(Folder)
    case Some(Leaf) => n.nodeType == Some(if child then Folder else Leaf)
    case None =>
      if kind.None? || kind == Some(RootPath) then n.nodeType == None
      else n.nodeType == Some(if kind == Some(EndPath) && !child then Leaf else Folder)
  }

  ghost predicate Settled(rows: seq<Row>, t: Table, p: string)
    requires p in t
  {
    && LinkColumns(rows, p, BLANK, t[p]) && PlaceColumns(rows, p, BLANK, t[p])
    && exists role, kind, content :: && Raw(rows, p, role, kind, content)
                                     && Retyped(t[p], kind, content, HasPageChild(t, p))
                                     && Recast(t[p], role, kind, HasChild(t, p))
  }

  /** Roots are numbered from 0 in the order of their paths, and nothing else has a number. */
  ghost predicate Ordered(t: Table) {
    && (forall p :: p in t ==> (t[p].rootOrder.Some? <==> t[p].nodeType == Some(Root)))
    && (forall p :: p in Roots(t) ==> t[p].rootOrder.value < |Roots(t)|)
    && (forall p, q :: p in Roots(t) && q in Roots(t) ==>
          (t[p].rootOrder.value < t[q].rootOrder.value <==> Before(p, q)))
  }

  lemma {:induction false} OrderAssigned(t: Table)
    ensures Ordered(AssignRootOrder(t))
  {
    var u := AssignRootOrder(t);
    assert Roots(u) == Roots(t);
    hide Before, Roots, RootsBefore;
    forall p, q | p in Roots(t) && q in Roots(t)
      ensures u[p].rootOrder.value < |Roots(t)| && (u[p].rootOrder.value < u[q].rootOrder.value <==> Before(p, q))
    {
      RootOrderFollowsPaths(t, p, q);
    }
    forall p | p in Roots(t) ensures u[p].rootOrder.value < |Roots(t)| { RootOrderFollowsPaths(t, p, p); }
  }

  lemma {:induction false} FinishShape(work: Table, p: string)
    requires p in work
    ensures SameShape(work, Finish(work)) && p in Reconcile(work) && p in Finish(work)
    ensures Finish(work)[p] == Reconcile(work)[p].(rootOrder := Finish(work)[p].rootOrder)
  {
    ReconcileShape(work);
  }

  lemma {:induction false} FinishSettles(rows: seq<Row>, p: string)
    requires p in Apply(map[], rows)
    ensures p in Finish(Apply(map[], rows)) && Settled(rows, Finish(Apply(map[], rows)), p)
  {
    var work := Apply(map[], rows);
    assert Was(map[], p) == BLANK;
    hide LastWins, FirstWins, HasChild, HasPageChild, Apply, Reconcile, AssignRootOrder, Finish, SameShape, Was;
    var t, w := Finish(work), work[p];
    FinishShape(work, p);
    BatchLeaves(map[], rows, p);
    ReconcileSettles(work, p);
    SameShapeChildren(work, t, p);
    hide Retyped, Recast, LinkColumns, PlaceColumns;
    assert Raw(rows, p, w.nodeType, w.fileType, w.content);
    RetypedBy(w, t[p], HasPageChild(work, p));
    RecastBy(w, t[p], HasChild(work, p));
    SameLinks(rows, p, w, t[p]);
  }

  lemma {:induction false} SameLinks(rows: seq<Row>, p: string, w: Node, n: Node)
    requires LinkColumns(rows, p, BLANK, w) && PlaceColumns(rows, p, BLANK, w)
    requires n == w.(nodeType := n.nodeType, fileType := n.fileType, content := n.content, rootOrder := n.rootOrder)
    ensures LinkColumns(rows, p, BLANK, n) && PlaceColumns(rows, p, BLANK, n)
  {
    hide FirstWins, LastWins;
  }

  lemma {:induction false} RetypedBy(w: Node, n: Node, pageChild: bool)
    requires w.fileType == Some(EndPath) && pageChild ==> n.fileType == Some(IntermediatePath) && n.content.None?
    requires !(w.fileType == Some(EndPath) && pageChild) ==> n.fileType == w.fileType && n.content == w.content
    ensures Retyped(n, w.fileType, w.content, pageChild)
  {}

  lemma {:induction false} RecastBy(w: Node, n: Node, child: bool)
    requires w.nodeType == Some(Root) ==> n.nodeType == Some(Root)
    requires w.nodeType == Some(Folder) ==> n.nodeType == Some(Folder)
    requires w.nodeType == Some(Leaf) ==> n.nodeType == Some(if child then Folder else Leaf)
    requires w.nodeType.None? && w.fileType.Some? && w.fileType != Some(RootPath) ==>
               n.nodeType == Some(if w.fileType == Some(EndPath) && !child then Leaf else Folder)
    requires w.nodeType.None? && (w.fileType.None? || w.fileType == Some(RootPath)) ==> n.nodeType.None?
    ensures Recast(n, w.nodeType, w.fileType, child)
  {}

  /**
    The table of a finished crawl: its paths are those of the rows that the pages contribute, every
    column is settled by the positions of these rows and by what is stored below, and its roots are
    numbered by path.
  */
  lemma {:induction false} CrawlTable(site: Site) returns (links: seq<Link>, rows: seq<Row>)
    requires WellParsedSite(site)
    ensures links == Dequeued(site, Seeded(site)) && WholeChronicle(site, links, rows)
    ensures var commits := CrawlRun(site, EMPTY, None).commits;
            && commits != []
            && var t := commits[|commits| - 1].table;
            && (forall p :: p in t <==> Mentions(rows, p))
            && (forall p :: p in t ==> Settled(rows, t, p))
            && Ordered(t)
  {
    links, rows := Dequeued(site, Seeded(site)), Remaining(site, EMPTY);
    WholeInOrder(site);
    RunSound(site, EMPTY, None);
    var work, t := Apply(map[], rows), FinalTable(site);
    assert t == Finish(work) && t.Keys == work.Keys;
    OrderAssigned(Reconcile(work));
    hide *;
    forall p ensures p in t <==> Mentions(rows, p) { BatchPaths(map[], rows, p); }
    forall p | p in t ensures Settled(rows, t, p) { FinishSettles(rows, p); }
  }

  // -------------------------------------------------------------- the counters

  /** The pages the loop opened without success. */
  ghost function Broken(site: Site, f: Frontier): set<string> {
    set b | b in Opened(site, f) && b in site.pages && site.pages[b].Unreadable?
  }

  ghost predicate Fails(site: Site, f: Frontier)
    requires f.queue != []
  {
    var b := f.queue[0].base;
    b !in f.visited && b in site.pages && site.pages[b].Unreadable?
  }

  lemma {:induction false} TallyStep(site: Site, f: Frontier)
    requires f.queue != []
    ensures Advance(site, f).failed == f.failed + if Fails(site, f) then 1 else 0
    ensures Advance(site, f).total == f.total + |Yield(site, f)|
    ensures Exhausted(site, f) == Exhausted(site, Advance(site, f))
    ensures RestRows(site, f) == Yield(site, f) + RestRows(site, Advance(site, f))
  {}

  lemma {:induction false} OpenedStep(site: Site, f: Frontier, b: string)
    requires f.queue != []
    ensures b in Opened(site, f) <==>
              b in Opened(site, Advance(site, f))
              || (b == f.queue[0].base && b !in f.visited && b in site.pages)
    ensures f.queue[0].base !in Opened(site, Advance(site, f))
  {
    AdvanceShrinks(site, f);
    var g := Advance(site, f);
    assert f.queue[0].base in g.visited;
    hide Unopened, Advance;
    OpenedOnce(site, g);
  }

  lemma {:induction false} BrokenStep(site: Site, f: Frontier)
    requires f.queue != []
    ensures |Broken(site, f)| == |Broken(site, Advance(site, f))| + if Fails(site, f) then 1 else 0
  {
    var g, b := Advance(site, f), f.queue[0].base;
    hide Advance, Opened;
    forall x ensures x in Broken(site, f) <==> x in Broken(site, g) || (x == b && Fails(site, f)) {
      OpenedStep(site, f, x);
    }
    OpenedStep(site, f, b);
    assert b !in Broken(site, g);
    assert Broken(site, f) == Broken(site, g) + if Fails(site, f) then {b} else {};
  }

  lemma {:induction false} LoopTallies(site: Site, f: Frontier)
    ensures Exhausted(site, f).total == f.total + |RestRows(site, f)|
    ensures Exhausted(site, f).failed == f.failed + |Broken(site, f)|
    ensures Exhausted(site, f).queue == []
    decreases |Unopened(site, f)|, |f.queue|
  {
    if f.queue != [] {
      AdvanceShrinks(site, f);
      TallyStep(site, f);
      BrokenStep(site, f);
      hide *;
      LoopTallies(site, Advance(site, f));
    }
  }

  /** A crawl counts the rows it has saved and the pages it could not read. */
  lemma {:induction false} CrawlTallies(site: Site)
    ensures FinalFrontier(site).total == |Remaining(site, EMPTY)|
    ensures FinalFrontier(site).failed == (if site.index.Unreadable? then 1 else 0) + |Broken(site, Seeded(site))|
  {
    hide Broken, RestRows, Exhausted;
    LoopTallies(site, Seeded(site));
  }

  // ------------------------------------------------------ pauses and checkpoints

  /** A run pauses exactly when it is told to before it has taken its last link off the queue. */
  lemma {:induction false} PausesWhenTold(site: Site, work: Table, disk: Disk, f: Frontier, pause: Option<nat>)
    ensures Loop(site, work, disk, f, pause).ending.Paused? <==> pause.Some? && pause.value < |Dequeued(site, f)|
    decreases |Unopened(site, f)|, |f.queue|
  {
    hide Apply, Finish, Advance, Unopened, Yield;
    if f.queue != [] && pause != Some(0) {
      AdvanceShrinks(site, f);
      var g := Advance(site, f);
      var work' := Apply(work, Yield(site, f));
      var later := if pause.Some? then Some(pause.value - 1) else None;
      DequeuesOne(site, f);
      hide Dequeued;
      if Checkpoints(f, g) {
        PausesWhenTold(site, work', CommittedTwice(work', disk, g)[1], g, later);
      } else {
        PausesWhenTold(site, work', disk, g, later);
      }
    }
  }

  lemma {:induction false} DequeuesOne(site: Site, f: Frontier)
    requires f.queue != []
    ensures |Dequeued(site, f)| == 1 + |Dequeued(site, Advance(site, f))|
  {
    hide Advance, Unopened;
  }

  ghost predicate SnapshotAt(commits: seq<Disk>, n: nat) {
    exists i :: 0 <= i < |commits| && commits[i].snap.Some? && !commits[i].snap.value.done
                && commits[i].snap.value.frontier.processed == n
  }

  lemma {:induction false} SnapshotLater(first: seq<Disk>, rest: seq<Disk>, n: nat)
    requires SnapshotAt(first, n) || SnapshotAt(rest, n)
    ensures SnapshotAt(first + rest, n)
  {
    if SnapshotAt(first, n) {
      var i :| 0 <= i < |first| && first[i].snap.Some? && !first[i].snap.value.done
               && first[i].snap.value.frontier.processed == n;
      assert (first + rest)[i] == first[i];
    } else {
      var i :| 0 <= i < |rest| && rest[i].snap.Some? && !rest[i].snap.value.done
               && rest[i].snap.value.frontier.processed == n;
      assert (first + rest)[|first| + i] == rest[i];
    }
  }

  /** Whenever a run has saved another 250 pages it commits a snapshot, so a kill never costs more. */
  lemma {:induction false} CheckpointEveryTime(site: Site, work: Table, disk: Disk, f: Frontier, n: nat)
    requires f.processed < n <= Exhausted(site, f).processed && n % 250 == 0
    ensures SnapshotAt(Loop(site, work, disk, f, None).commits, n)
    decreases |Unopened(site, f)|, |f.queue|
  {
    hide Apply, Finish, Advance, Unopened, Yield, SnapshotAt;
    AdvanceShrinks(site, f);
    var g := Advance(site, f);
    var work' := Apply(work, Yield(site, f));
    StepCounts(site, f);
    if g.processed == n {
      var two := CommittedTwice(work', disk, g);
      TakesSnapshot(work', disk, g);
      SnapshotLater(two, Loop(site, work', two[1], g, None).commits, n);
    } else if Checkpoints(f, g) {
      var two := CommittedTwice(work', disk, g);
      CheckpointEveryTime(site, work', two[1], g, n);
      SnapshotLater(two, Loop(site, work', two[1], g, None).commits, n);
    } else {
      CheckpointEveryTime(site, work', disk, g, n);
    }
  }

  lemma {:induction false} StepCounts(site: Site, f: Frontier)
    requires f.queue != []
    ensures f.processed <= Advance(site, f).processed <= f.processed + 1
  {}

  lemma {:induction false} TakesSnapshot(work: Table, disk: Disk, g: Frontier)
    ensures SnapshotAt(CommittedTwice(work, disk, g), g.processed)
  {
    assert CommittedTwice(work, disk, g)[1].snap == Some(Snapshot(g, false));
  }
}
