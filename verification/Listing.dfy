/** Keyset pagination of a list that grows while it is being read. */
module Listing {
  import opened Wrappers

  const LIMIT_DEFAULT := 30
  const LIMIT_MAX := 100

  /** A row by its sort column and its id; a cursor is the pair of the last row returned. */
  datatype Row = Row(key: int, id: int)

  /** Newest first: `b` is listed strictly after `a`. */
  predicate Follows(b: Row, a: Row) {
    b.key < a.key || (b.key == a.key && b.id < a.id)
  }

  /** A query result in the list's order. */
  ghost predicate Ordered(qs: seq<Row>) {
    forall i, j :: 0 <= i < j < |qs| ==> Follows(qs[j], qs[i])
  }

  /** clamp_limit; None stands for anything that does not parse. */
  function ClampLimit(raw: Option<int>): (n: nat)
    ensures 1 <= n <= LIMIT_MAX
    ensures raw.Some? && 1 <= raw.value <= LIMIT_MAX ==> n == raw.value
    ensures raw.Some? && raw.value > LIMIT_MAX ==> n == LIMIT_MAX
    ensures raw.None? || raw.value < 1 ==> n == LIMIT_DEFAULT
  {
    if raw.None? || raw.value < 1 then LIMIT_DEFAULT else if raw.value > LIMIT_MAX then LIMIT_MAX else raw.value
  }

  /** apply_cursor */
  function Beyond(qs: seq<Row>, cursor: Option<Row>): seq<Row> {
    if qs == [] then []
    else (if cursor.None? || Follows(qs[0], cursor.value) then [qs[0]] else []) + Beyond(qs[1..], cursor)
  }

  datatype Page = Page(rows: seq<Row>, next: Option<Row>)

  function GetPage(qs: seq<Row>, limit: nat, cursor: Option<Row>): Page
    requires limit > 0
  {
    var rest := Beyond(qs, cursor);
    if |rest| > limit then Page(rest[..limit], Some(rest[limit - 1])) else Page(rest, None)
  }

  /** One fetch: the table as it is then, and the limit asked for. */
  datatype Fetch = Fetch(table: seq<Row>, limit: Option<int>)

  datatype Walk = Walk(rows: seq<Row>, finished: bool)

  /** Following next_cursor through successive states of the table. */
  function Follow(fetches: seq<Fetch>, cursor: Option<Row>): Walk
    decreases |fetches|
  {
    if fetches == [] then Walk([], false)
    else
      var page := GetPage(fetches[0].table, ClampLimit(fetches[0].limit), cursor);
      if page.next.None? then Walk(page.rows, true)
      else
        var rest := Follow(fetches[1..], page.next);
        Walk(page.rows + rest.rows, rest.finished)
  }

  lemma {:induction false} BeyondMember(qs: seq<Row>, cursor: Option<Row>, r: Row)
    ensures r in Beyond(qs, cursor) <==> r in qs && (cursor.None? || Follows(r, cursor.value))
  {
    if qs != [] {
      assert qs == [qs[0]] + qs[1..];
      BeyondMember(qs[1..], cursor, r);
    }
  }

  lemma {:induction false} BeyondOrdered(qs: seq<Row>, cursor: Option<Row>)
    requires Ordered(qs)
    ensures Ordered(Beyond(qs, cursor))
  {
    if qs != [] {
      BeyondOrdered(qs[1..], cursor);
      var rest := Beyond(qs[1..], cursor);
      forall i | 0 <= i < |rest| ensures Follows(rest[i], qs[0]) {
        BeyondMember(qs[1..], cursor, rest[i]);
        assert rest[i] in rest;
        var k :| 0 <= k < |qs[1..]| && qs[1..][k] == rest[i];
        assert qs[k + 1] == rest[i];
      }
    }
  }

  /** One page: in order, beyond the cursor, and nothing skipped before its last row. */
  lemma {:induction false} PageSound(qs: seq<Row>, limit: nat, cursor: Option<Row>)
    requires Ordered(qs) && limit > 0
    ensures var p := GetPage(qs, limit, cursor);
            && Ordered(p.rows)
            && (forall r :: r in p.rows ==> r in qs && (cursor.Some? ==> Follows(r, cursor.value)))
            && |p.rows| <= limit && (p.next.Some? ==> |p.rows| == limit && p.next.value == p.rows[limit - 1])
            && (p.next.Some? <==>
                  exists r :: r in qs && (cursor.None? || Follows(r, cursor.value)) && r !in p.rows)
            && (forall r :: r in qs && (cursor.None? || Follows(r, cursor.value)) ==>
                  r in p.rows || (p.next.Some? && Follows(r, p.next.value)))
  {
    var rest := Beyond(qs, cursor);
    var p := GetPage(qs, limit, cursor);
    BeyondOrdered(qs, cursor);
    forall r
      ensures r in rest <==> r in qs && (cursor.None? || Follows(r, cursor.value))
    {
      BeyondMember(qs, cursor, r);
    }
    forall k | 0 <= k < |rest| ensures rest[k] in p.rows || (p.next.Some? && Follows(rest[k], p.next.value)) {
      if |rest| <= limit {
        assert rest[k] in p.rows;
      } else if k < limit {
        assert p.rows[k] == rest[k];
      }
    }
    if |rest| > limit {
      assert rest[limit] in rest && forall i :: 0 <= i < limit ==> Follows(rest[limit], p.rows[i]);
      assert rest[limit] !in p.rows;
    }
  }

  lemma {:induction false} JoinOrdered(a: seq<Row>, b: seq<Row>, last: Row)
    requires Ordered(a) && Ordered(b) && a != [] && a[|a| - 1] == last
    requires forall r :: r in b ==> Follows(r, last)
    ensures Ordered(a + b)
  {
    forall i, j | 0 <= i < j < |a + b| ensures Follows((a + b)[j], (a + b)[i]) {
      if i < |a| <= j { assert b[j - |a|] in b; }
    }
  }

  /** The row is in the table at every fetch. */
  ghost predicate Throughout(fetches: seq<Fetch>, r: Row) {
    forall f :: f in fetches ==> r in f.table
  }

  /**
    Whatever is inserted or deleted between fetches: rows come in strict order, so none comes
    twice, and a list followed to its end has returned every row that was there throughout.
  */
  lemma {:induction false} FollowSound(fetches: seq<Fetch>, cursor: Option<Row>)
    requires forall f :: f in fetches ==> Ordered(f.table)
    ensures var w := Follow(fetches, cursor);
            && Ordered(w.rows)
            && (forall r :: r in w.rows ==> cursor.Some? ==> Follows(r, cursor.value))
            && (forall r :: r in w.rows ==> exists f :: f in fetches && r in f.table)
            && (w.finished ==>
                  forall r :: Throughout(fetches, r) && (cursor.None? || Follows(r, cursor.value)) ==> r in w.rows)
    decreases |fetches|
  {
    if fetches != [] {
      var f := fetches[0];
      assert f in fetches;
      var p := GetPage(f.table, ClampLimit(f.limit), cursor);
      PageSound(f.table, ClampLimit(f.limit), cursor);
      if p.next.Some? {
        assert forall g :: g in fetches[1..] ==> g in fetches;
        FollowSound(fetches[1..], p.next);
        var rest := Follow(fetches[1..], p.next);
        JoinOrdered(p.rows, rest.rows, p.next.value);
        assert p.next.value in p.rows;
        forall r | r in rest.rows && cursor.Some? ensures Follows(r, cursor.value) {}
      }
    }
  }

  function Asked(fetches: seq<Fetch>): nat {
    if fetches == [] then 0 else ClampLimit(fetches[0].limit) + Asked(fetches[1..])
  }

  /** A walk that is not finished has returned all the rows it asked for. */
  lemma {:induction false} UnfinishedIsFull(fetches: seq<Fetch>, cursor: Option<Row>)
    ensures var w := Follow(fetches, cursor);
            if w.finished then |w.rows| <= Asked(fetches) else |w.rows| == Asked(fetches)
    decreases |fetches|
  {
    if fetches != [] {
      var page := GetPage(fetches[0].table, ClampLimit(fetches[0].limit), cursor);
      if page.next.Some? { UnfinishedIsFull(fetches[1..], page.next); }
    }
  }

  lemma {:induction false} OrderedDistinct(rows: seq<Row>)
    requires Ordered(rows)
    ensures forall i, j :: 0 <= i < j < |rows| ==> rows[i] != rows[j]
  {}

  /** With inserts only, a finished walk from the top returns every initial row exactly once. */
  lemma {:induction false} PaginationUnderInserts(fetches: seq<Fetch>, r: Row)
    requires fetches != [] && forall f :: f in fetches ==> Ordered(f.table)
    requires forall i, x :: 0 <= i < |fetches| - 1 && x in fetches[i].table ==> x in fetches[i + 1].table
    requires r in fetches[0].table && Follow(fetches, None).finished
    ensures var rows := Follow(fetches, None).rows;
            exists k :: 0 <= k < |rows| && rows[k] == r && forall i :: 0 <= i < |rows| && i != k ==> rows[i] != r
  {
    FollowSound(fetches, None);
    forall f | f in fetches ensures r in f.table {
      var i :| 0 <= i < |fetches| && fetches[i] == f;
      StaysIn(fetches, r, i);
    }
    assert Throughout(fetches, r);
    var rows := Follow(fetches, None).rows;
    OrderedDistinct(rows);
    var k :| 0 <= k < |rows| && rows[k] == r;
  }

  lemma {:induction false} StaysIn(fetches: seq<Fetch>, r: Row, i: nat)
    requires i < |fetches| && r in fetches[0].table
    requires forall i, x :: 0 <= i < |fetches| - 1 && x in fetches[i].table ==> x in fetches[i + 1].table
    ensures r in fetches[i].table
  {
    if i > 0 { StaysIn(fetches, r, i - 1); }
  }
}
