/** Every schedule of kills, pauses and restarts of the crawl ends where one uninterrupted run ends. */
module Recovery {
  import opened Wrappers
  import opened NodeTable
  import opened Crawl

  /** The rows a crawl restarted on `disk` will upsert, and the frontier it will end on. */
  ghost function Remaining(site: Site, disk: Disk): seq<Row> {
    match Resume(disk)
    case Some(f) => RestRows(site, f)
    case None => IndexRows(site) + RestRows(site, Seeded(site))
  }

  ghost function EndFrontier(site: Site, disk: Disk): Frontier {
    match Resume(disk)
    case Some(f) => Exhausted(site, f)
    case None => Exhausted(site, Seeded(site))
  }

  ghost function FinalTable(site: Site): Table {
    Finish(Apply(map[], Remaining(site, EMPTY)))
  }

  ghost function FinalFrontier(site: Site): Frontier {
    EndFrontier(site, EMPTY)
  }

  /** A crawl restarted on `disk` and left alone would end in the final table. */
  ghost predicate Recoverable(site: Site, disk: Disk) {
    && Finish(Apply(disk.table, Remaining(site, disk))) == FinalTable(site)
    && EndFrontier(site, disk) == FinalFrontier(site)
  }

  ghost predicate AllRecoverable(site: Site, disks: seq<Disk>) {
    forall d :: d in disks ==> Recoverable(site, d)
  }

  /** A run all of whose commits are recoverable and which, if it completes, has the final result. */
  ghost predicate Sound(site: Site, run: Run) {
    && run.commits != []
    && AllRecoverable(site, run.commits)
    && (run.ending.Completed? ==>
          && run.commits[|run.commits| - 1] == Disk(FinalTable(site), Some(Snapshot(FinalFrontier(site), true)))
          && run.ending.pages == FinalFrontier(site).processed)
  }

  // --------------------------------------------------------- rows are typed

  lemma {:induction false} FollowTyped(site: Site, visited: set<string>, c: Link)
    requires WellParsedSite(site)
    ensures ContentTyped(RowsOf(Follow(site, visited, c)))
  {}

  lemma {:induction false} RestTyped(site: Site, f: Frontier)
    requires WellParsedSite(site)
    ensures ContentTyped(RestRows(site, f))
    decreases |Unopened(site, f)|, |f.queue|
  {
    if f.queue != [] {
      AdvanceShrinks(site, f);
      FollowTyped(site, f.visited, f.queue[0]);
      RestTyped(site, Advance(site, f));
    }
  }

  lemma {:induction false} RemainingTyped(site: Site, disk: Disk)
    requires WellParsedSite(site)
    ensures ContentTyped(Remaining(site, disk))
  {
    match Resume(disk) {
      case Some(f) => RestTyped(site, f);
      case None => RestTyped(site, Seeded(site));
    }
  }

  // ------------------------------------------------------------ the invariant

  /**
    A run in progress: the last committed snapshot was taken when the table was `base`;
    `rows` have been upserted since, and what the snapshot would replay is `rows` and then
    whatever `f` still has to add.
  */
  ghost predicate InProgress(site: Site, base: Table, rows: seq<Row>, work: Table, disk: Disk, f: Frontier) {
    && work == Apply(base, rows)
    && Remaining(site, disk) == rows + RestRows(site, f)
    && EndFrontier(site, disk) == Exhausted(site, f) == FinalFrontier(site)
    && Finish(Apply(base, rows + RestRows(site, f))) == FinalTable(site)
  }

  /** The first of the two checkpoint commits leaves the table ahead of its snapshot. */
  lemma {:induction false} AheadOfSnapshot(site: Site, base: Table, rows: seq<Row>, work: Table, disk: Disk,
                                           f: Frontier)
    requires InProgress(site, base, rows, work, disk, f)
    ensures Recoverable(site, Disk(work, disk.snap))
  {
    PrefixAbsorbed(base, rows, RestRows(site, f));
    assert Remaining(site, Disk(work, disk.snap)) == Remaining(site, disk);
  }

  lemma {:induction false} AtSnapshot(site: Site, base: Table, rows: seq<Row>, work: Table, disk: Disk, f: Frontier)
    requires InProgress(site, base, rows, work, disk, f)
    ensures Recoverable(site, Disk(work, Some(Snapshot(f, false))))
    ensures InProgress(site, work, [], work, Disk(work, Some(Snapshot(f, false))), f)
  {
    ApplyAppend(base, rows, RestRows(site, f));
    assert [] + RestRows(site, f) == RestRows(site, f);
  }

  /** Both commits of a checkpoint. */
  lemma {:induction false} CheckpointSound(site: Site, base: Table, rows: seq<Row>, work: Table, disk: Disk,
                                           f: Frontier)
    requires InProgress(site, base, rows, work, disk, f)
    ensures var two := CommittedTwice(work, disk, f);
            && |two| == 2
            && Sound(site, Run(two, Paused))
            && AllRecoverable(site, two)
            && InProgress(site, work, [], work, two[1], f)
  {
    hide Apply, Finish;
    AheadOfSnapshot(site, base, rows, work, disk, f);
    AtSnapshot(site, base, rows, work, disk, f);
  }

  /** At the end of the loop: killed after any of the next three commits, the crawl still ends in the final table. */
  lemma {:induction false} FinalRecoverable(site: Site, base: Table, rows: seq<Row>, work: Table, disk: Disk,
                                            f: Frontier)
    requires WellParsedSite(site)
    requires InProgress(site, base, rows, work, disk, f)
    requires f.queue == []
    ensures Recoverable(site, Disk(work, disk.snap))
    ensures Recoverable(site, Disk(Reconcile(work), disk.snap))
    ensures Recoverable(site, Disk(Finish(work), disk.snap))
    ensures Finish(work) == FinalTable(site) && f == FinalFrontier(site)
  {
    AheadOfSnapshot(site, base, rows, work, disk, f);
    RemainingTyped(site, disk);
    ReplayThroughFinish(base, rows, Reconcile(work));
    ReplayThroughFinish(base, rows, Finish(work));
    assert Exhausted(site, f) == f;
    hide Apply, Finish, Reconcile, FinalTable, FinalFrontier, Exhausted, ContentTyped, WellParsedSite;
    assert rows + RestRows(site, f) == rows;
  }

  lemma {:induction false} FinalSound(site: Site, base: Table, rows: seq<Row>, work: Table, disk: Disk, f: Frontier)
    requires WellParsedSite(site)
    requires InProgress(site, base, rows, work, disk, f)
    requires f.queue == []
    ensures Sound(site, Run(FinalCommits(work, disk, f), Completed(f.processed)))
  {
    hide Recoverable, InProgress, Finish, Reconcile, FinalTable, FinalFrontier, WellParsedSite, Sound;
    FinalRecoverable(site, base, rows, work, disk, f);
    RestartedRecoverable(site);
    FourSound(site, FinalCommits(work, disk, f), f);
  }

  lemma {:induction false} FourSound(site: Site, four: seq<Disk>, f: Frontier)
    requires |four| == 4 && four[3] == Disk(FinalTable(site), Some(Snapshot(f, true))) && f == FinalFrontier(site)
    requires forall i :: 0 <= i < 4 ==> Recoverable(site, four[i])
    ensures Sound(site, Run(four, Completed(f.processed)))
  {
    hide Recoverable, FinalTable, FinalFrontier;
    forall d | d in four ensures Recoverable(site, d) {
      var i :| 0 <= i < 4 && four[i] == d;
    }
  }

  /** A finished crawl that is started again re-crawls over its own table and ends in it. */
  lemma {:induction false} RestartedRecoverable(site: Site)
    requires WellParsedSite(site)
    ensures forall f :: Recoverable(site, Disk(FinalTable(site), Some(Snapshot(f, true))))
  {
    var rows := Remaining(site, EMPTY);
    RemainingTyped(site, EMPTY);
    ReplayThroughFinish(map[], rows, FinalTable(site));
    forall f ensures Recoverable(site, Disk(FinalTable(site), Some(Snapshot(f, true)))) {
      assert Remaining(site, Disk(FinalTable(site), Some(Snapshot(f, true)))) == rows;
    }
  }

  lemma {:induction false} AdvanceProgress(site: Site, base: Table, rows: seq<Row>, work: Table, disk: Disk,
                                           f: Frontier)
    requires InProgress(site, base, rows, work, disk, f)
    requires f.queue != []
    ensures InProgress(site, base, rows + Yield(site, f), Apply(work, Yield(site, f)), disk, Advance(site, f))
  {
    hide Apply, Finish, Advance, Yield, Remaining, EndFrontier, FinalFrontier, FinalTable;
    AdvanceShrinks(site, f);
    ApplyAppend(base, rows, Yield(site, f));
    assert rows + RestRows(site, f) == rows + Yield(site, f) + RestRows(site, Advance(site, f));
  }

  lemma {:induction false} SoundAfter(site: Site, first: seq<Disk>, run: Run)
    requires Sound(site, run) && AllRecoverable(site, first)
    ensures Sound(site, Run(first + run.commits, run.ending))
  {}

  lemma {:induction false} LoopSound(site: Site, base: Table, rows: seq<Row>, work: Table, disk: Disk,
                                     f: Frontier, pause: Option<nat>)
    requires WellParsedSite(site)
    requires InProgress(site, base, rows, work, disk, f)
    ensures Sound(site, Loop(site, work, disk, f, pause))
    ensures pause.None? ==> Loop(site, work, disk, f, pause).ending.Completed?
    decreases |Unopened(site, f)|, |f.queue|
  {
    hide Apply, Finish, Advance, Sound, AllRecoverable, InProgress, FinalCommits, CommittedTwice;
    if f.queue == [] {
      FinalSound(site, base, rows, work, disk, f);
    } else if pause == Some(0) {
      CheckpointSound(site, base, rows, work, disk, f);
    } else {
      AdvanceShrinks(site, f);
      AdvanceProgress(site, base, rows, work, disk, f);
      var g := Advance(site, f);
      var rows', work' := rows + Yield(site, f), Apply(work, Yield(site, f));
      var later := if pause.Some? then Some(pause.value - 1) else None;
      if Checkpoints(f, g) {
        CheckpointSound(site, base, rows', work', disk, g);
        var two := CommittedTwice(work', disk, g);
        LoopSound(site, work', [], work', two[1], g, later);
        SoundAfter(site, two, Loop(site, work', two[1], g, later));
      } else {
        LoopSound(site, base, rows', work', disk, g, later);
      }
    }
  }

  /** Everything one call of crawl() commits is recoverable, and a call that completes has the final result. */
  lemma {:induction false} RunSound(site: Site, disk: Disk, pause: Option<nat>)
    requires WellParsedSite(site) && Recoverable(site, disk)
    ensures Sound(site, CrawlRun(site, disk, pause))
    ensures pause.None? ==> CrawlRun(site, disk, pause).ending.Completed?
  {
    match Resume(disk) {
      case Some(f) =>
        assert [] + RestRows(site, f) == RestRows(site, f);
        LoopSound(site, disk.table, [], disk.table, disk, f, pause);
      case None =>
        var f := Seeded(site);
        var table := Apply(disk.table, IndexRows(site));
        var seeded := Disk(table, Some(Snapshot(f, false)));
        ApplyAppend(disk.table, IndexRows(site), RestRows(site, f));
        assert [] + RestRows(site, f) == RestRows(site, f);
        assert Recoverable(site, seeded);
        LoopSound(site, table, [], table, seeded, f, pause);
        SoundAfter(site, [seeded], Loop(site, table, seeded, f, pause));
    }
  }

  // ---------------------------------------------------------------- schedules

  /** One start of the crawler: when it sees a cancel event, and after how many commits it is killed. */
  datatype Attempt = Attempt(pause: Option<nat>, killedAfter: Option<nat>)

  /** A kill drops everything since the last commit. */
  ghost function After(site: Site, disk: Disk, a: Attempt): Disk {
    var commits := CrawlRun(site, disk, a.pause).commits;
    var survived := if a.killedAfter.Some? && a.killedAfter.value < |commits| then a.killedAfter.value else |commits|;
    if survived == 0 then disk else commits[survived - 1]
  }

  ghost function Survive(site: Site, disk: Disk, schedule: seq<Attempt>): Disk
    decreases |schedule|
  {
    if schedule == [] then disk else Survive(site, After(site, disk, schedule[0]), schedule[1..])
  }

  lemma {:induction false} ScheduleRecoverable(site: Site, disk: Disk, schedule: seq<Attempt>)
    requires WellParsedSite(site) && Recoverable(site, disk)
    ensures Recoverable(site, Survive(site, disk, schedule))
    decreases |schedule|
  {
    if schedule != [] {
      RunSound(site, disk, schedule[0].pause);
      ScheduleRecoverable(site, After(site, disk, schedule[0]), schedule[1..]);
    }
  }

  /**
    After any schedule of attempts, a call of crawl() that is left alone ends with the
    disk and the page count of one uninterrupted crawl of an empty database.
  */
  lemma {:induction false} InterruptionsAreInvisible(site: Site, schedule: seq<Attempt>)
    requires WellParsedSite(site)
    ensures var alone := CrawlRun(site, EMPTY, None);
            var last := CrawlRun(site, Survive(site, EMPTY, schedule), None);
            && alone.ending.Completed? && alone.commits != [] && last.commits != []
            && last.ending == alone.ending
            && last.commits[|last.commits| - 1] == alone.commits[|alone.commits| - 1]
  {
    RunSound(site, EMPTY, None);
    ScheduleRecoverable(site, EMPTY, schedule);
    RunSound(site, Survive(site, EMPTY, schedule), None);
  }

  // ------------------------------------------------------------------ coverage

  /** The pages whose file the loop opens, in order. */
  ghost function Opened(site: Site, f: Frontier): seq<string>
    decreases |Unopened(site, f)|, |f.queue|
  {
    if f.queue == [] then []
    else
      AdvanceShrinks(site, f);
      var c := f.queue[0];
      (if c.base !in f.visited && c.base in site.pages then [c.base] else []) + Opened(site, Advance(site, f))
  }

  /** The pages the loop saves; excluded, dropped and unreadable pages are opened but not saved. */
  ghost function SavedPages(site: Site, f: Frontier): set<string>
    decreases |Unopened(site, f)|, |f.queue|
  {
    if f.queue == [] then {}
    else
      AdvanceShrinks(site, f);
      SavedNow(site, f) + SavedPages(site, Advance(site, f))
  }

  ghost function SavedNow(site: Site, f: Frontier): set<string>
    requires f.queue != []
  {
    if Follow(site, f.visited, f.queue[0]).Saved? then {f.queue[0].base} else {}
  }

  ghost function ListedBy(site: Site, saved: set<string>): set<string> {
    set b, x | b in saved && b in site.pages && x in Listed(site.pages[b]) :: x
  }

  lemma {:induction false} ListedByUnion(site: Site, a: set<string>, b: set<string>)
    ensures ListedBy(site, a + b) == ListedBy(site, a) + ListedBy(site, b)
  {}

  lemma {:induction false} AdvanceFollows(site: Site, f: Frontier)
    requires f.queue != []
    ensures Advance(site, f).visited == f.visited + {f.queue[0].base}
    ensures Advance(site, f).processed == f.processed + |SavedNow(site, f)|
    ensures Bases(f.queue) + ListedBy(site, SavedNow(site, f)) == {f.queue[0].base} + Bases(Advance(site, f).queue)
    ensures SavedNow(site, f) !! f.visited && SavedNow(site, f) <= Advance(site, f).visited
  {
    var c := f.queue[0];
    FollowLists(site, f.visited, c);
    BasesAppend(f.queue[1..], LinksOf(Follow(site, f.visited, c)));
    BasesAppend([c], f.queue[1..]);
    assert f.queue == [c] + f.queue[1..];
    assert Bases([c]) == {c.base};
  }

  lemma {:induction false} FollowLists(site: Site, visited: set<string>, c: Link)
    ensures var o := Follow(site, visited, c);
            Bases(LinksOf(o)) == ListedBy(site, if o.Saved? then {c.base} else {})
  {
    var o := Follow(site, visited, c);
    if o.Saved? {
      assert o.links == site.pages[c.base].links;
      assert ListedBy(site, {c.base}) == Listed(site.pages[c.base]);
    } else {
      assert Bases(LinksOf(o)) == {};
      assert ListedBy(site, {}) == {};
    }
  }

  lemma {:induction false} Regroup<T>(seen: set<T>, one: set<T>, queue: set<T>, queue': set<T>, now: set<T>,
                                      later: set<T>)
    requires queue + now == one + queue'
    ensures seen + one + queue' + later == seen + queue + (now + later)
  {
    assert seen + one + queue' + later == seen + (one + queue') + later;
  }

  /** The loop ends having followed exactly the queue and the links of the pages it saved. */
  lemma {:induction false} LoopCoverage(site: Site, f: Frontier)
    ensures Exhausted(site, f).visited == f.visited + Bases(f.queue) + ListedBy(site, SavedPages(site, f))
    decreases |Unopened(site, f)|, |f.queue|
  {
    if f.queue == [] {
      assert Bases([]) == {} && ListedBy(site, {}) == {};
    } else {
      var g, now := Advance(site, f), SavedNow(site, f);
      AdvanceShrinks(site, f);
      AdvanceFollows(site, f);
      hide *;
      LoopCoverage(site, g);
      ListedByUnion(site, now, SavedPages(site, g));
      Regroup(f.visited, {f.queue[0].base}, Bases(f.queue), Bases(g.queue), ListedBy(site, now),
              ListedBy(site, SavedPages(site, g)));
    }
  }

  /** Each saved page is counted once. */
  lemma {:induction false} LoopCount(site: Site, f: Frontier)
    ensures Exhausted(site, f).processed == f.processed + |SavedPages(site, f)|
    ensures SavedPages(site, f) !! f.visited
    decreases |Unopened(site, f)|, |f.queue|
  {
    if f.queue != [] {
      var g, now := Advance(site, f), SavedNow(site, f);
      AdvanceShrinks(site, f);
      AdvanceFollows(site, f);
      hide *;
      LoopCount(site, g);
      assert now !! SavedPages(site, g);
      assert |now + SavedPages(site, g)| == |now| + |SavedPages(site, g)|;
    }
  }

  lemma {:induction false} OpenedNew(site: Site, f: Frontier, b: string)
    requires b in Opened(site, f)
    ensures b !in f.visited && b in site.pages
    decreases |Unopened(site, f)|, |f.queue|
  {
    AdvanceShrinks(site, f);
    var g := Advance(site, f);
    assert g.visited == f.visited + {f.queue[0].base};
    hide Advance, Unopened;
    if b in Opened(site, g) { OpenedNew(site, g, b); }
  }

  lemma {:induction false} SavedOpened(site: Site, f: Frontier, b: string)
    requires b in SavedPages(site, f)
    ensures b in Opened(site, f)
    decreases |Unopened(site, f)|, |f.queue|
  {
    AdvanceShrinks(site, f);
    var g := Advance(site, f);
    hide Advance, Unopened;
    if b in SavedPages(site, g) { SavedOpened(site, g, b); }
  }

  /** No page is opened twice, and every saved page was opened. */
  lemma {:induction false} OpenedOnce(site: Site, f: Frontier)
    ensures forall i, j :: 0 <= i < j < |Opened(site, f)| ==> Opened(site, f)[i] != Opened(site, f)[j]
    ensures forall b :: b in Opened(site, f) ==> b !in f.visited && b in site.pages
    ensures forall b :: b in SavedPages(site, f) ==> b in Opened(site, f)
    decreases |Unopened(site, f)|, |f.queue|
  {
    if f.queue != [] {
      AdvanceShrinks(site, f);
      var g := Advance(site, f);
      assert g.visited == f.visited + {f.queue[0].base};
      hide Advance, Unopened, SavedPages;
      OpenedOnce(site, g);
      var later := Opened(site, g);
      forall i | 0 <= i < |later| ensures later[i] != f.queue[0].base {
        assert later[i] in later;
        OpenedNew(site, g, later[i]);
      }
    }
    forall b | b in Opened(site, f) ensures b !in f.visited && b in site.pages { OpenedNew(site, f, b); }
    forall b | b in SavedPages(site, f) ensures b in Opened(site, f) { SavedOpened(site, f, b); }
  }

  /** A whole crawl visits the index, its links and the links of the saved pages; it counts the pages saved. */
  lemma {:induction false} CrawlCoverage(site: Site)
    ensures var saved := SavedPages(site, Seeded(site));
            && FinalFrontier(site).visited == {site.indexBase} + Listed(site.index) + ListedBy(site, saved)
            && FinalFrontier(site).processed == (if site.index.Page? then 1 else 0) + |saved|
            && site.indexBase !in saved
  {
    LoopCoverage(site, Seeded(site));
    LoopCount(site, Seeded(site));
  }
}
