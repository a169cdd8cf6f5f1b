/**
  The crawler object: one database connection, whose uncommitted view of the nodes
  and crawl_state tables is updated in place, and the committed state a kill would leave.
*/
module Crawler {
  import opened Wrappers
  import opened Text
  import opened NodeTable
  import opened Crawl

  /** Every root numbered so far precedes every root that is not. */
  ghost predicate Numbered(t: Table, remaining: set<string>) {
    forall p, q :: p in Roots(t) - remaining && q in remaining ==> Before(p, q)
  }

  /** The table when the roots outside `remaining` have been numbered. */
  ghost function PartlyNumbered(t: Table, remaining: set<string>): Table {
    map p | p in t :: if p in remaining then t[p] else AssignRootOrder(t)[p]
  }

  lemma {:induction false} FirstRank(t: Table, remaining: set<string>, p: string)
    requires remaining <= Roots(t) && Numbered(t, remaining)
    requires p in remaining && forall q :: q in remaining ==> !Before(q, p)
    ensures RootsBefore(t, p) == Roots(t) - remaining
    ensures Numbered(t, remaining - {p})
    ensures |Roots(t) - (remaining - {p})| == |Roots(t) - remaining| + 1
  {
    forall q | q in remaining && q != p ensures Before(p, q) { BeforeTotal(p, q); }
    assert Roots(t) - (remaining - {p}) == (Roots(t) - remaining) + {p};
  }

  lemma {:induction false} NextRoot(t: Table, remaining: set<string>, p: string)
    requires remaining <= Roots(t) && p in remaining
    ensures p in PartlyNumbered(t, remaining)
    ensures var now := PartlyNumbered(t, remaining);
            now[p := now[p].(rootOrder := Some(|RootsBefore(t, p)|))] == PartlyNumbered(t, remaining - {p})
  {
    hide Before, RootsBefore;
  }

  class LogicalHTMLParser {
    const site: Site
    var view: Disk                 // what the connection sees
    var disk: Disk                 // what has been committed
    ghost var commits: seq<Disk>   // every committed state, in order

    constructor (site: Site, disk: Disk)
      ensures this.site == site && this.disk == disk && view == disk && commits == []
    {
      this.site := site;
      this.disk, this.view := disk, disk;
      commits := [];
    }

    method Commit()
      modifies this
      ensures view == old(view) && disk == view && commits == old(commits) + [view]
    {
      disk := view;
      commits := commits + [view];
    }

    method SaveRows(rows: seq<Row>) returns (n: nat)
      modifies this`view
      ensures view == Disk(Apply(old(view).table, rows), old(view).snap)
      ensures n == |rows|
    {
      n := 0;
      assert rows[..|rows|] == rows;
      while n < |rows|
        invariant n <= |rows|
        invariant view == Disk(Apply(old(view).table, rows[..n]), old(view).snap)
      {
        var r := rows[n];
        assert rows[..n + 1] == rows[..n] + [r];
        ApplyAppend(old(view).table, rows[..n], [r]);
        var table := view.table;
        if r.path in table {
          table := table[r.path := Merged(table[r.path], r)];
        } else {
          table := table[r.path := Inserted(r)];
        }
        view := view.(table := table);
        n := n + 1;
      }
    }

    method SaveCheckpoint(f: Frontier, done: bool)
      modifies this
      ensures view == Disk(old(view).table, Some(Snapshot(f, done)))
      ensures disk == view && commits == old(commits) + [view]
    {
      view := view.(snap := Some(Snapshot(f, done)));
      Commit();
    }

    method ReconcileFileTypes()
      modifies this`view
      ensures view == Disk(Reconcile(old(view).table), old(view).snap)
    {
      view := view.(table := PromotePages(view.table));
      view := view.(table := NameRoles(view.table));
      view := view.(table := FolderParents(view.table));
    }

    /** Roots are read in path order and numbered one by one. */
    method NumberRoots() returns (order: nat)
      modifies this`view
      ensures view == Disk(AssignRootOrder(old(view).table), old(view).snap)
      ensures order == |Roots(old(view).table)|
    {
      ghost var t := view.table;
      var table := view.table;
      var remaining := set p | p in table && table[p].nodeType == Some(Root);
      table := map p | p in table ::
        if table[p].nodeType != Some(Root) then table[p].(rootOrder := None) else table[p];
      order := 0;
      hide Before, RootsBefore, Numbered, PartlyNumbered, AssignRootOrder;
      while remaining != {}
        invariant view == old(view)
        invariant remaining <= Roots(t) && order == |Roots(t) - remaining|
        invariant Numbered(t, remaining) && table == PartlyNumbered(t, remaining)
        decreases remaining
      {
        FirstExists(remaining);
        var p :| p in remaining && forall q :: q in remaining ==> !Before(q, p);
        FirstRank(t, remaining, p);
        NextRoot(t, remaining, p);
        table := table[p := table[p].(rootOrder := Some(order))];
        remaining := remaining - {p};
        order := order + 1;
      }
      assert Roots(t) - remaining == Roots(t);
      view := view.(table := table);
    }

    method LoadCheckpoint() returns (f: Option<Frontier>)
      ensures f == Resume(view)
    {
      if view.snap.None? || view.snap.value.done {
        f := None;
      } else {
        f := Some(view.snap.value.frontier);
      }
    }

    /** One iteration of the loop: take the next link and, unless it was followed before, open its page. */
    method VisitNext(f: Frontier) returns (g: Frontier)
      requires f.queue != []
      modifies this`view
      ensures g == Advance(site, f)
      ensures view == Disk(Apply(old(view).table, Yield(site, f)), old(view).snap)
    {
      var visited, queue, processed, failed, total := f.visited, f.queue, f.processed, f.failed, f.total;
      var c := queue[0];
      queue := queue[1..];
      if c.base !in visited {
        visited := visited + {c.base};
        if c.base in site.pages {
          match Open(site.pages[c.base], c) {
            case Failed => failed := failed + 1;
            case Pruned =>
            case Dropped =>
            case Skipped =>
            case Saved(rows, links) =>
              var n := SaveRows(rows);
              total := total + n;
              processed := processed + 1;
              queue := queue + links;
          }
        }
      }
      g := Frontier(visited, queue, processed, failed, total);
    }

    /** A fresh crawl: the index page is saved and checkpointed in one commit. */
    method Seed() returns (f: Frontier)
      modifies this
      ensures f == Seeded(site)
      ensures view == Disk(Apply(old(view).table, IndexRows(site)), Some(Snapshot(f, false)))
      ensures disk == view && commits == old(commits) + [view]
    {
      f := Frontier({site.indexBase}, [], 0, 0, 0);
      match site.index {
        case Unreadable => f := f.(failed := 1);
        case Page(own, dom, links) =>
          var n := SaveRows([own] + dom);
          f := f.(processed := 1, total := n, queue := links);
      }
      SaveCheckpoint(f, false);
    }

    /** Rows are committed first and the frontier second, so the table may be ahead of the snapshot. */
    method Checkpoint(f: Frontier)
      requires disk.snap == view.snap
      modifies this
      ensures commits == old(commits) + CommittedTwice(old(view).table, old(disk), f)
      ensures disk == view == CommittedTwice(old(view).table, old(disk), f)[1]
    {
      Commit();
      SaveCheckpoint(f, false);
    }

    method Finalise(f: Frontier)
      requires disk.snap == view.snap
      modifies this
      ensures commits == old(commits) + FinalCommits(old(view).table, old(disk), f)
      ensures disk == view == FinalCommits(old(view).table, old(disk), f)[3]
    {
      hide Reconcile, AssignRootOrder;
      Commit();
      ReconcileFileTypes();
      Commit();
      var _ := NumberRoots();
      Commit();
      SaveCheckpoint(f, true);
    }

    /** Commits exactly the states of CrawlRun, in order, and ends as it does. */
    method Crawl(pause: Option<nat>) returns (ending: Ending)
      requires view == disk
      modifies this
      ensures commits == old(commits) + CrawlRun(site, old(disk), pause).commits
      ensures ending == CrawlRun(site, old(disk), pause).ending
      ensures view == disk && commits != [] && disk == commits[|commits| - 1]
    {
      hide Apply, Reconcile, Finish, Advance, Yield, Seeded, IndexRows, Unopened;
      ghost var run := CrawlRun(site, disk, pause);
      var f: Frontier;
      var resumed := LoadCheckpoint();
      if resumed.Some? {
        f := resumed.value;
      } else {
        f := Seed();
      }
      var checks := pause;
      while f.queue != []
        invariant disk.snap == view.snap
        invariant var rest := Loop(site, view.table, disk, f, checks);
                  commits + rest.commits == old(commits) + run.commits && rest.ending == run.ending
        decreases |Unopened(site, f)|, |f.queue|
      {
        if checks == Some(0) {
          Checkpoint(f);
          return Paused;
        }
        checks := if checks.Some? then Some(checks.value - 1) else None;
        AdvanceShrinks(site, f);
        var g := VisitNext(f);
        if g.processed > f.processed && g.processed % CHECKPOINT_EVERY == 0 {
          Checkpoint(g);
        }
        f := g;
      }
      Finalise(f);
      ending := Completed(f.processed);
    }
  }
}
