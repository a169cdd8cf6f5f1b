/**
  The breadth-first crawl of htmlparser_logical.py as functions: what one page
  does to the frontier, what a whole run commits to disk, and what a run that
  is killed, paused or restarted leaves behind.

  Parsing is a deterministic function of the file: a Site gives the outcome of
  parse_page for every indexed basename.
*/
module Crawl {
  import opened Wrappers
  import opened Text
  import opened NodeTable

  /** One structural child listed by a page. */
  datatype Link = Link(base: string, nodeType: Option<NodeType>, sortOrder: int,
                       href: Option<string>, text: string, parentPath: Option<string>)

  /** parse_page either fails or yields the page's own row, its DOM rows and its links. */
  datatype Page = Unreadable | Page(own: Row, dom: seq<Row>, links: seq<Link>)

  datatype Site = Site(indexBase: string, index: Page, pages: map<string, Page>)

  const EXCLUDED_PAGE_TITLES := {"Repair and Diagnosis (Single Page)"}
  const CHECKPOINT_EVERY := 250

  /** What parse_page guarantees: a page's own row has a file_type, a DOM row has no content. */
  ghost predicate WellParsed(page: Page) {
    page.Page? ==> page.own.fileType.Some? && forall r :: r in page.dom ==> r.content.None?
  }

  ghost predicate WellParsedSite(site: Site) {
    WellParsed(site.index) && forall b :: b in site.pages ==> WellParsed(site.pages[b])
  }

  datatype Frontier = Frontier(visited: set<string>, queue: seq<Link>,
                               processed: nat, failed: nat, total: nat)

  // --------------------------------------------------------------- one page

  datatype Opening = Saved(rows: seq<Row>, links: seq<Link>) | Pruned | Dropped | Failed | Skipped

  /** The body of the BFS loop for a page that is opened through `c`. */
  function Open(page: Page, c: Link): Opening {
    if page.Unreadable? then Failed
    else if page.own.title in EXCLUDED_PAGE_TITLES then Pruned
    else
      var own := page.own.(nodeType := c.nodeType, sortOrder := c.sortOrder,
                           href := if c.href.Some? && c.href.value != "" then c.href else page.own.href);
      if own.path != "" then Saved([own] + page.dom, page.links)
      else if c.parentPath.Some? && c.text != "" then
        var path := Norm(c.parentPath.value + [SLASH] + Escape(c.text));
        var anchored := own.(path := path, parentPath := ParentPath(path), title := c.text,
                             depth := CountSlashes(path), fileType := Some(EndPath));
        Saved([anchored] + page.dom, page.links)
      else Dropped
  }

  /** A link already followed, or to a file that is not indexed, opens nothing. */
  function Follow(site: Site, visited: set<string>, c: Link): Opening {
    if c.base in visited || c.base !in site.pages then Skipped else Open(site.pages[c.base], c)
  }

  function RowsOf(o: Opening): seq<Row> {
    if o.Saved? then o.rows else []
  }

  function LinksOf(o: Opening): seq<Link> {
    if o.Saved? then o.links else []
  }

  /** One iteration of the loop, on a non-empty queue: the frontier it leaves ... */
  function Advance(site: Site, f: Frontier): Frontier
    requires f.queue != []
  {
    var o := Follow(site, f.visited, f.queue[0]);
    Frontier(f.visited + {f.queue[0].base},
             f.queue[1..] + LinksOf(o),
             f.processed + (if o.Saved? then 1 else 0),
             f.failed + (if o.Failed? then 1 else 0),
             f.total + |RowsOf(o)|)
  }

  /** ... and the rows it upserts. */
  function Yield(site: Site, f: Frontier): seq<Row>
    requires f.queue != []
  {
    RowsOf(Follow(site, f.visited, f.queue[0]))
  }

  function IndexRows(site: Site): seq<Row> {
    if site.index.Unreadable? then [] else [site.index.own] + site.index.dom
  }

  /** The frontier after the index page of a fresh crawl. */
  function Seeded(site: Site): Frontier {
    match site.index
    case Unreadable => Frontier({site.indexBase}, [], 0, 1, 0)
    case Page(own, dom, links) => Frontier({site.indexBase}, links, 1, 0, 1 + |dom|)
  }

  // -------------------------------------------------------------- termination

  function Bases(links: seq<Link>): set<string> {
    set c | c in links :: c.base
  }

  function Listed(page: Page): set<string> {
    if page.Unreadable? then {} else Bases(page.links)
  }

  function Linked(site: Site): set<string> {
    set b, x | b in site.pages && x in Listed(site.pages[b]) :: x
  }

  /** The pages that may still be opened from `f`; it bounds the loop for any link graph. */
  function Unopened(site: Site, f: Frontier): set<string> {
    (Linked(site) + Bases(f.queue)) - f.visited
  }

  lemma {:induction false} BasesAppend(a: seq<Link>, b: seq<Link>)
    ensures Bases(a + b) == Bases(a) + Bases(b)
  {}

  lemma {:induction false} FollowLinked(site: Site, visited: set<string>, c: Link)
    ensures Bases(LinksOf(Follow(site, visited, c))) <= Linked(site)
    ensures c.base in visited ==> LinksOf(Follow(site, visited, c)) == []
  {
    if c.base !in visited && c.base in site.pages {
      assert Listed(site.pages[c.base]) <= Linked(site);
    }
  }

  ghost predicate Smaller(site: Site, g: Frontier, f: Frontier) {
    || |Unopened(site, g)| < |Unopened(site, f)|
    || (|Unopened(site, g)| == |Unopened(site, f)| && |g.queue| < |f.queue|)
  }

  lemma {:induction false} AdvanceShrinks(site: Site, f: Frontier)
    requires f.queue != []
    ensures Smaller(site, Advance(site, f), f)
  {
    var c := f.queue[0];
    var g := Advance(site, f);
    var links := LinksOf(Follow(site, f.visited, c));
    FollowLinked(site, f.visited, c);
    BasesAppend(f.queue[1..], links);
    BasesAppend([c], f.queue[1..]);
    assert f.queue == [c] + f.queue[1..];
    assert Unopened(site, g) <= Unopened(site, f);
    if c.base in f.visited {
      assert Unopened(site, g) == Unopened(site, f);
    } else {
      assert c.base in Unopened(site, f) && c.base !in Unopened(site, g);
      SubsetSize(Unopened(site, g), Unopened(site, f));
    }
  }

  // ------------------------------------------------------- the rest of a crawl

  /** The rows still to be upserted when the loop is entered with `f`. */
  ghost function RestRows(site: Site, f: Frontier): seq<Row>
    decreases |Unopened(site, f)|, |f.queue|
  {
    if f.queue == [] then []
    else
      AdvanceShrinks(site, f);
      Yield(site, f) + RestRows(site, Advance(site, f))
  }

  /** The frontier on which the loop ends. */
  ghost function Exhausted(site: Site, f: Frontier): Frontier
    decreases |Unopened(site, f)|, |f.queue|
  {
    if f.queue == [] then f
    else
      AdvanceShrinks(site, f);
      Exhausted(site, Advance(site, f))
  }

  // -------------------------------------------------------------- disk states

  datatype Snapshot = Snapshot(frontier: Frontier, done: bool)

  /** What survives a kill: the committed rows and the committed snapshot. */
  datatype Disk = Disk(table: Table, snap: Option<Snapshot>)

  const EMPTY := Disk(map[], None)

  datatype Ending = Paused | Completed(pages: nat)

  /** The disk states a run commits, in order, and how it ends when it is not killed. */
  datatype Run = Run(commits: seq<Disk>, ending: Ending)

  function Resume(disk: Disk): Option<Frontier> {
    if disk.snap.Some? && !disk.snap.value.done then Some(disk.snap.value.frontier) else None
  }

  predicate Checkpoints(f: Frontier, g: Frontier) {
    g.processed > f.processed && g.processed % CHECKPOINT_EVERY == 0
  }

  function CommittedTwice(work: Table, disk: Disk, f: Frontier): seq<Disk> {
    [Disk(work, disk.snap), Disk(work, Some(Snapshot(f, false)))]
  }

  /** Rows, reconciliation, root order and the done marker are four commits. */
  ghost function FinalCommits(work: Table, disk: Disk, f: Frontier): seq<Disk> {
    [Disk(work, disk.snap), Disk(Reconcile(work), disk.snap), Disk(Finish(work), disk.snap),
     Disk(Finish(work), Some(Snapshot(f, true)))]
  }

  /** The loop from `f` with uncommitted table `work`; the cancel event is seen at check number `pause`. */
  ghost function Loop(site: Site, work: Table, disk: Disk, f: Frontier, pause: Option<nat>): Run
    decreases |Unopened(site, f)|, |f.queue|
  {
    if f.queue == [] then Run(FinalCommits(work, disk, f), Completed(f.processed))
    else if pause == Some(0) then Run(CommittedTwice(work, disk, f), Paused)
    else
      hide Apply, Finish, Advance, Unopened;
      AdvanceShrinks(site, f);
      var g := Advance(site, f);
      var work' := Apply(work, Yield(site, f));
      var later := if pause.Some? then Some(pause.value - 1) else None;
      if Checkpoints(f, g) then
        var two := CommittedTwice(work', disk, g);
        var run := Loop(site, work', two[1], g, later);
        Run(two + run.commits, run.ending)
      else Loop(site, work', disk, g, later)
  }

  /** One call of crawl(): resume from a live snapshot, else start afresh over whatever rows are there. */
  ghost function CrawlRun(site: Site, disk: Disk, pause: Option<nat>): Run {
    match Resume(disk)
    case Some(f) => Loop(site, disk.table, disk, f, pause)
    case None =>
      var table := Apply(disk.table, IndexRows(site));
      var seeded := Disk(table, Some(Snapshot(Seeded(site), false)));
      var run := Loop(site, table, seeded, Seeded(site), pause);
      Run([seeded] + run.commits, run.ending)
  }
}
