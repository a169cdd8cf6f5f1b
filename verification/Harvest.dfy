/**
  What a crawl brings in: the order in which links are followed, which pages are saved, and which
  rows they contribute, stated on pages and links alone.
*/
module Harvest {
  import opened Wrappers
  import opened Text
  import opened NodeTable
  import opened Crawl
  import opened Recovery

  // ------------------------------------------------------------ what is saved

  /** A page without a path of its own can be hung under the page that links to it. */
  ghost predicate Anchors(c: Link) {
    c.parentPath.Some? && c.text != ""
  }

  /** A readable page is saved unless its title is excluded or it has no place in the tree. */
  ghost predicate Saves(page: Page, c: Link) {
    page.Page? && page.own.title !in EXCLUDED_PAGE_TITLES && (page.own.path != "" || Anchors(c))
  }

  /**
    The row a page is saved under when it is opened through `c`: the role, the order and, unless
    it is empty, the address of the link; the rest as parsed, or anchored under the referrer.
  */
  ghost predicate OwnRow(page: Page, c: Link, r: Row) {
    && page.Page? && r.nodeType == c.nodeType && r.sortOrder == c.sortOrder
    && (if c.href.Some? && c.href.value != "" then r.href == c.href else r.href == page.own.href)
    && r.source == page.own.source && r.content == page.own.content
    && if page.own.path != "" then
         && r.path == page.own.path && r.parentPath == page.own.parentPath && r.title == page.own.title
         && r.depth == page.own.depth && r.fileType == page.own.fileType
       else
         && Anchors(c) && r.path == Norm(c.parentPath.value + "/" + Escape(c.text)) && r.title == c.text
         && r.parentPath == ParentPath(r.path) && r.depth == CountSlashes(r.path) && r.fileType == Some(EndPath)
  }

  // --------------------------------------------------------- the order of links

  /** The links in the order in which the loop takes them off the queue. */
  ghost function Dequeued(site: Site, f: Frontier): seq<Link>
    decreases |Unopened(site, f)|, |f.queue|
  {
    if f.queue == [] then []
    else
      AdvanceShrinks(site, f);
      [f.queue[0]] + Dequeued(site, Advance(site, f))
  }

  /** A link opens its page when no earlier one has led to that page. */
  ghost predicate SavesNext(site: Site, seen: set<string>, c: Link) {
    c.base !in seen && c.base in site.pages && Saves(site.pages[c.base], c)
  }

  /** The links listed by the pages that `links` save, page after page. */
  ghost function Listings(site: Site, seen: set<string>, links: seq<Link>): seq<Link>
    decreases |links|
  {
    if links == [] then []
    else
      (if SavesNext(site, seen, links[0]) then site.pages[links[0].base].links else [])
      + Listings(site, seen + {links[0].base}, links[1..])
  }

  lemma {:induction false} FollowSaves(site: Site, seen: set<string>, c: Link)
    ensures var o := Follow(site, seen, c);
            && (o.Saved? <==> SavesNext(site, seen, c))
            && (o.Saved? ==> && o.links == site.pages[c.base].links && |o.rows| == 1 + |site.pages[c.base].dom|
                             && OwnRow(site.pages[c.base], c, o.rows[0]) && o.rows[1..] == site.pages[c.base].dom)
  {
    hide Norm, ParentPath, CountSlashes, Escape;
  }

  lemma {:induction false} Requeue(c: Link, waiting: seq<Link>, listed: seq<Link>, later: seq<Link>)
    ensures [c] + ((waiting + listed) + later) == ([c] + waiting) + (listed + later)
  {}

  /** Breadth first: what is queued comes first, then the links of the saved pages in the order these were saved. */
  lemma {:induction false} BreadthFirst(site: Site, f: Frontier)
    ensures Dequeued(site, f) == f.queue + Listings(site, f.visited, Dequeued(site, f))
    decreases |Unopened(site, f)|, |f.queue|
  {
    if f.queue != [] {
      AdvanceShrinks(site, f);
      FollowSaves(site, f.visited, f.queue[0]);
      var g, c := Advance(site, f), f.queue[0];
      var listed := LinksOf(Follow(site, f.visited, c));
      assert g.visited == f.visited + {c.base} && g.queue == f.queue[1..] + listed;
      BreadthFirst(site, g);
      hide Follow, SavesNext, Unopened, Advance;
      assert Dequeued(site, f)[0] == c && Dequeued(site, f)[1..] == Dequeued(site, g);
      var later := Listings(site, g.visited, Dequeued(site, g));
      assert Listings(site, f.visited, Dequeued(site, f)) == listed + later;
      hide Listings, Dequeued;
      Requeue(c, f.queue[1..], listed, later);
      assert f.queue == [c] + f.queue[1..];
    }
  }

  // ------------------------------------------------------------------ the rows

  /** `rows` are, for each saved page in order, its own row and then its DOM rows, and nothing else. */
  ghost predicate Chronicle(site: Site, seen: set<string>, links: seq<Link>, rows: seq<Row>)
    decreases |links|
  {
    if links == [] then rows == []
    else if SavesNext(site, seen, links[0]) then
      var page := site.pages[links[0].base];
      var n := 1 + |page.dom|;
      && |rows| >= n && OwnRow(page, links[0], rows[0]) && rows[1..n] == page.dom
      && Chronicle(site, seen + {links[0].base}, links[1..], rows[n..])
    else Chronicle(site, seen + {links[0].base}, links[1..], rows)
  }

  lemma {:induction false} RowsInOrder(site: Site, f: Frontier)
    ensures Chronicle(site, f.visited, Dequeued(site, f), RestRows(site, f))
    decreases |Unopened(site, f)|, |f.queue|
  {
    if f.queue != [] {
      AdvanceShrinks(site, f);
      FollowSaves(site, f.visited, f.queue[0]);
      var g, c := Advance(site, f), f.queue[0];
      var rows, rest := Yield(site, f), RestRows(site, g);
      RowsInOrder(site, g);
      hide Follow, Saves, OwnRow, Unopened;
      assert Dequeued(site, f)[0] == c && Dequeued(site, f)[1..] == Dequeued(site, g);
      assert RestRows(site, f) == rows + rest && (rows + rest)[|rows|..] == rest;
      if SavesNext(site, f.visited, c) { assert (rows + rest)[1..|rows|] == rows[1..]; }
    }
  }

  /** The link at `i` is the first to its page, and the page is saved through it. */
  ghost predicate SavesAt(site: Site, seen: set<string>, links: seq<Link>, i: nat) {
    && i < |links| && SavesNext(site, seen, links[i])
    && forall j :: 0 <= j < i ==> links[j].base != links[i].base
  }

  lemma {:induction false} SavesLater(site: Site, seen: set<string>, links: seq<Link>, i: nat)
    requires links != []
    ensures SavesAt(site, seen, links, i + 1) <==> SavesAt(site, seen + {links[0].base}, links[1..], i)
  {
    hide Saves;
    if SavesAt(site, seen + {links[0].base}, links[1..], i) {
      forall j | 0 <= j < i + 1 ensures links[j].base != links[i + 1].base {
        if j > 0 { assert links[1..][j - 1] == links[j]; }
      }
    }
  }

  ghost predicate Brings(page: Page, c: Link, rows: seq<Row>) {
    && page.Page? && (exists r :: r in rows && OwnRow(page, c, r))
    && forall r :: r in page.dom ==> r in rows
  }

  lemma {:induction false} ChronicleBrings(site: Site, seen: set<string>, links: seq<Link>, rows: seq<Row>, i: nat)
    requires Chronicle(site, seen, links, rows) && SavesAt(site, seen, links, i)
    ensures Brings(site.pages[links[i].base], links[i], rows)
    decreases |links|
  {
    var n := if SavesNext(site, seen, links[0]) then 1 + |site.pages[links[0].base].dom| else 0;
    hide OwnRow;
    if i == 0 {
      assert rows[0] in rows;
      forall r | r in site.pages[links[0].base].dom ensures r in rows { assert r in rows[1..n]; }
    } else {
      SavesLater(site, seen, links, i - 1);
      ChronicleBrings(site, seen + {links[0].base}, links[1..], rows[n..], i - 1);
    }
  }

  lemma {:induction false} ChronicleSource(site: Site, seen: set<string>, links: seq<Link>, rows: seq<Row>, r: Row)
    returns (i: nat)
    requires Chronicle(site, seen, links, rows) && r in rows
    ensures SavesAt(site, seen, links, i)
    ensures r in site.pages[links[i].base].dom || OwnRow(site.pages[links[i].base], links[i], r)
    decreases |links|
  {
    var n := if SavesNext(site, seen, links[0]) then 1 + |site.pages[links[0].base].dom| else 0;
    hide OwnRow;
    if r in rows[..n] {
      i := 0;
      var k :| 0 <= k < n && rows[k] == r;
      if k > 0 { assert rows[1..n][k - 1] == r; }
    } else {
      assert rows == rows[..n] + rows[n..];
      var j := ChronicleSource(site, seen + {links[0].base}, links[1..], rows[n..], r);
      SavesLater(site, seen, links, j);
      i := j + 1;
    }
  }

  ghost predicate SavesPage(site: Site, seen: set<string>, links: seq<Link>, b: string) {
    exists i: nat :: SavesAt(site, seen, links, i) && links[i].base == b
  }

  lemma {:induction false} SavesPageStep(site: Site, seen: set<string>, links: seq<Link>, b: string)
    requires links != []
    ensures SavesPage(site, seen, links, b) <==>
              || (SavesNext(site, seen, links[0]) && links[0].base == b)
              || SavesPage(site, seen + {links[0].base}, links[1..], b)
  {
    hide SavesNext;
    if SavesNext(site, seen, links[0]) && links[0].base == b { assert SavesAt(site, seen, links, 0); }
    if SavesPage(site, seen + {links[0].base}, links[1..], b) {
      var i: nat :| SavesAt(site, seen + {links[0].base}, links[1..], i) && links[1..][i].base == b;
      SavesLater(site, seen, links, i);
      assert links[i + 1].base == b;
    }
    if SavesPage(site, seen, links, b) {
      var i: nat :| SavesAt(site, seen, links, i) && links[i].base == b;
      if i > 0 {
        SavesLater(site, seen, links, i - 1);
        assert links[1..][i - 1].base == b;
      }
    }
  }

  /** The pages saved are those whose first link saves them. */
  lemma {:induction false} SavedByFirstLink(site: Site, f: Frontier, b: string)
    ensures b in SavedPages(site, f) <==> SavesPage(site, f.visited, Dequeued(site, f), b)
    decreases |Unopened(site, f)|, |f.queue|
  {
    if f.queue != [] {
      AdvanceShrinks(site, f);
      FollowSaves(site, f.visited, f.queue[0]);
      var g := Advance(site, f);
      assert g.visited == f.visited + {f.queue[0].base};
      SavedByFirstLink(site, g, b);
      hide Follow, Saves, OwnRow, Unopened, SavesPage, Advance;
      assert Dequeued(site, f)[0] == f.queue[0] && Dequeued(site, f)[1..] == Dequeued(site, g);
      SavesPageStep(site, f.visited, Dequeued(site, f), b);
    }
  }

  /** `c` is the link through which a whole crawl opens the page `b`. */
  ghost predicate OpenedThrough(site: Site, b: string, c: Link) {
    var links := Dequeued(site, Seeded(site));
    exists i: nat :: SavesAt(site, {site.indexBase}, links, i) && links[i] == c && c.base == b
  }

  lemma {:induction false} SavedBrings(site: Site, b: string) returns (c: Link)
    requires b in SavedPages(site, Seeded(site))
    ensures b in site.pages && OpenedThrough(site, b, c)
    ensures Brings(site.pages[b], c, RestRows(site, Seeded(site)))
  {
    var f := Seeded(site);
    var links := Dequeued(site, f);
    assert f.visited == {site.indexBase};
    SavedByFirstLink(site, f, b);
    var i: nat :| SavesAt(site, f.visited, links, i) && links[i].base == b;
    RowsInOrder(site, f);
    ChronicleBrings(site, f.visited, links, RestRows(site, f), i);
    c := links[i];
  }

  lemma {:induction false} RowSource(site: Site, r: Row) returns (b: string, c: Link)
    requires r in RestRows(site, Seeded(site))
    ensures b in SavedPages(site, Seeded(site)) && b in site.pages && OpenedThrough(site, b, c)
    ensures site.pages[b].Page? && (r in site.pages[b].dom || OwnRow(site.pages[b], c, r))
  {
    var f := Seeded(site);
    var links := Dequeued(site, f);
    assert f.visited == {site.indexBase};
    RowsInOrder(site, f);
    var i := ChronicleSource(site, f.visited, links, RestRows(site, f), r);
    b, c := links[i].base, links[i];
    assert SavesPage(site, f.visited, links, b);
    SavedByFirstLink(site, f, b);
  }

  /**
    A whole crawl brings in, for every page it saves, each of its DOM rows and its own row as the
    link that opened it makes it; every row it brings in comes from a saved page in this way.
  */
  lemma {:induction false} CrawlBrings(site: Site)
    ensures var saved, rows := SavedPages(site, Seeded(site)), RestRows(site, Seeded(site));
            && (forall b :: b in saved ==>
                  b in site.pages && exists c :: OpenedThrough(site, b, c) && Brings(site.pages[b], c, rows))
            && (forall r :: r in rows ==>
                  exists b, c :: && b in saved && b in site.pages && OpenedThrough(site, b, c)
                                 && (r in site.pages[b].dom || OwnRow(site.pages[b], c, r)))
  {
    var f := Seeded(site);
    assert f.visited == {site.indexBase};
    RowsInOrder(site, f);
    hide *;
    forall b | b in SavedPages(site, f)
      ensures b in site.pages && exists c :: OpenedThrough(site, b, c) && Brings(site.pages[b], c, RestRows(site, f))
    {
      var c := SavedBrings(site, b);
    }
    forall r | r in RestRows(site, f)
      ensures exists b, c :: && b in SavedPages(site, f) && b in site.pages && OpenedThrough(site, b, c)
                             && (r in site.pages[b].dom || OwnRow(site.pages[b], c, r))
    {
      var b, c := RowSource(site, r);
    }
  }
}
