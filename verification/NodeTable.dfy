/**
  The nodes table of the crawl: the upsert of save_rows, the corrections of
  _reconcile_file_types and the numbering of _assign_root_order.

  A row's id is a hash of its path, taken to be injective, so the table is a map
  from path to node and parent_id is the parent's path.
*/
module NodeTable {
  import opened Wrappers
  import opened Text

  datatype NodeType = Root | Folder | Leaf
  datatype FileType = RootPath | IntermediatePath | EndPath

  /** One parsed row, as handed to save_rows. */
  datatype Row = Row(path: string, parentPath: Option<string>, title: string,
                     nodeType: Option<NodeType>, fileType: Option<FileType>,
                     href: Option<string>, source: Option<string>,
                     sortOrder: int, depth: int, content: Option<string>)

  /** One stored row. */
  datatype Node = Node(parent: Option<string>, title: string,
                       nodeType: Option<NodeType>, fileType: Option<FileType>,
                       href: Option<string>, source: Option<string>,
                       sortOrder: int, depth: int, content: Option<string>,
                       rootOrder: Option<nat>)

  type Table = map<string, Node>

  const BLANK := Node(None, "", None, None, None, None, 0, 0, None, None)

  // ------------------------------------------------------------------ upsert

  function Inserted(r: Row): Node {
    Node(r.parentPath, r.title, r.nodeType, r.fileType, r.href, r.source,
         r.sortOrder, r.depth, r.content, None)
  }

  /** ON CONFLICT(id) DO UPDATE: `s` is written over `prior`. */
  function Over(prior: Node, s: Node): Node {
    Node(Coalesce(s.parent, prior.parent),
         if s.title != "" then s.title else prior.title,
         Coalesce(s.nodeType, prior.nodeType),
         Coalesce(s.fileType, prior.fileType),
         Coalesce(prior.href, s.href),
         Coalesce(prior.source, s.source),
         s.sortOrder, s.depth,
         Coalesce(s.content, prior.content),
         prior.rootOrder)
  }

  function Merged(prior: Node, r: Row): Node {
    Over(prior, Inserted(r))
  }

  function Upsert(t: Table, r: Row): Table {
    t[r.path := if r.path in t then Merged(t[r.path], r) else Inserted(r)]
  }

  function Apply(t: Table, rows: seq<Row>): Table
    decreases |rows|
  {
    if rows == [] then t else Apply(Upsert(t, rows[0]), rows[1..])
  }

  lemma {:induction false} ApplyAppend(t: Table, a: seq<Row>, b: seq<Row>)
    ensures Apply(t, a + b) == Apply(Apply(t, a), b)
    decreases |a|
  {
    if a == [] {
      assert a + b == b;
    } else {
      assert (a + b)[0] == a[0] && (a + b)[1..] == a[1..] + b;
      ApplyAppend(Upsert(t, a[0]), a[1..], b);
    }
  }

  // ---------------------------------------------- what a batch does to one path

  /** Everything a batch says about one path, folded into a single node. */
  function Summary(rows: seq<Row>, p: string): Option<Node> {
    if rows == [] then None
    else
      var rest := Summary(rows[1..], p);
      if rows[0].path != p then rest
      else if rest.None? then Some(Inserted(rows[0]))
      else Some(Over(Inserted(rows[0]), rest.value))
  }

  function Was(t: Table, p: string): Node {
    if p in t then t[p] else BLANK
  }

  lemma {:induction false} ApplyAt(t: Table, rows: seq<Row>, p: string)
    ensures p in Apply(t, rows) <==> p in t || Summary(rows, p).Some?
    ensures Summary(rows, p).None? && p in t ==> Apply(t, rows)[p] == t[p]
    ensures Summary(rows, p).Some? ==> Apply(t, rows)[p] == Over(Was(t, p), Summary(rows, p).value)
    decreases |rows|
  {
    if rows != [] {
      ApplyAt(Upsert(t, rows[0]), rows[1..], p);
    }
  }

  // --------------------------------------- what a batch leaves, column by column

  /** `v` is what the last row of `p` with a value in the column says, or else the value before. */
  ghost predicate LastWins<T(!new)>(rows: seq<Row>, p: string, col: Row -> Option<T>, was: Option<T>, v: Option<T>) {
    || (v == was && forall i :: 0 <= i < |rows| && rows[i].path == p ==> col(rows[i]).None?)
    || exists i :: && 0 <= i < |rows| && rows[i].path == p && col(rows[i]).Some? && v == col(rows[i])
                   && forall j :: i < j < |rows| && rows[j].path == p ==> col(rows[j]).None?
  }

  /** `v` is the value before, or else what the first row of `p` with a value in the column says. */
  ghost predicate FirstWins<T(!new)>(rows: seq<Row>, p: string, col: Row -> Option<T>, was: Option<T>, v: Option<T>) {
    || (was.Some? && v == was)
    || (was.None? && v.None? && forall i :: 0 <= i < |rows| && rows[i].path == p ==> col(rows[i]).None?)
    || (was.None? && exists i :: && 0 <= i < |rows| && rows[i].path == p && col(rows[i]).Some? && v == col(rows[i])
                                 && forall j :: 0 <= j < i && rows[j].path == p ==> col(rows[j]).None?)
  }

  lemma {:induction false} LastWinsStep<T(!new)>(rows: seq<Row>, p: string, col: Row -> Option<T>, was: Option<T>,
                                                 v: Option<T>)
    requires rows != []
    requires LastWins(rows[1..], p, col, if rows[0].path == p && col(rows[0]).Some? then col(rows[0]) else was, v)
    ensures LastWins(rows, p, col, was, v)
  {
    var rest := rows[1..];
    if forall i :: 0 <= i < |rest| && rest[i].path == p ==> col(rest[i]).None? {
      forall j | 0 < j < |rows| && rows[j].path == p ensures col(rows[j]).None? { assert rest[j - 1] == rows[j]; }
    } else {
      var i :| && 0 <= i < |rest| && rest[i].path == p && col(rest[i]).Some? && v == col(rest[i])
               && forall j :: i < j < |rest| && rest[j].path == p ==> col(rest[j]).None?;
      assert rows[i + 1] == rest[i];
      forall j | i + 1 < j < |rows| && rows[j].path == p ensures col(rows[j]).None? { assert rest[j - 1] == rows[j]; }
    }
  }

  lemma {:induction false} FirstWinsStep<T(!new)>(rows: seq<Row>, p: string, col: Row -> Option<T>, was: Option<T>,
                                                  v: Option<T>)
    requires rows != []
    requires FirstWins(rows[1..], p, col, if was.None? && rows[0].path == p then col(rows[0]) else was, v)
    ensures FirstWins(rows, p, col, was, v)
  {
    var rest := rows[1..];
    if was.None? && !(rows[0].path == p && col(rows[0]).Some?) {
      if forall i :: 0 <= i < |rest| && rest[i].path == p ==> col(rest[i]).None? {
        forall j | 0 < j < |rows| && rows[j].path == p ensures col(rows[j]).None? { assert rest[j - 1] == rows[j]; }
      } else {
        var i :| && 0 <= i < |rest| && rest[i].path == p && col(rest[i]).Some? && v == col(rest[i])
                 && forall j :: 0 <= j < i && rest[j].path == p ==> col(rest[j]).None?;
        assert rows[i + 1] == rest[i];
        forall j | 0 < j < i + 1 && rows[j].path == p ensures col(rows[j]).None? { assert rest[j - 1] == rows[j]; }
      }
    }
  }

  ghost predicate Mentions(rows: seq<Row>, p: string) {
    exists i :: 0 <= i < |rows| && rows[i].path == p
  }

  /** The paths of a table are those it had and those of the batch. */
  lemma {:induction false} BatchPaths(t: Table, rows: seq<Row>, p: string)
    ensures p in Apply(t, rows) <==> p in t || Mentions(rows, p)
    decreases |rows|
  {
    if rows != [] {
      var rest := rows[1..];
      BatchPaths(Upsert(t, rows[0]), rest, p);
      if Mentions(rest, p) { var i :| 0 <= i < |rest| && rest[i].path == p; assert rows[i + 1].path == p; }
      if Mentions(rows, p) && rows[0].path != p {
        var i :| 0 <= i < |rows| && rows[i].path == p;
        assert rest[i - 1].path == p;
      }
    }
  }

  ghost predicate LinkColumns(rows: seq<Row>, p: string, was: Node, n: Node) {
    && FirstWins(rows, p, (r: Row) => r.href, was.href, n.href)
    && FirstWins(rows, p, (r: Row) => r.source, was.source, n.source)
  }

  ghost predicate RoleColumns(rows: seq<Row>, p: string, was: Node, n: Node) {
    && LastWins(rows, p, (r: Row) => r.nodeType, was.nodeType, n.nodeType)
    && LastWins(rows, p, (r: Row) => r.fileType, was.fileType, n.fileType)
    && LastWins(rows, p, (r: Row) => r.content, was.content, n.content)
  }

  ghost predicate PlaceColumns(rows: seq<Row>, p: string, was: Node, n: Node) {
    && LastWins(rows, p, (r: Row) => r.parentPath, was.parent, n.parent)
    && LastWins(rows, p, (r: Row) => if r.title != "" then Some(r.title) else None, Some(was.title), Some(n.title))
    && LastWins(rows, p, (r: Row) => Some(r.sortOrder), Some(was.sortOrder), Some(n.sortOrder))
    && LastWins(rows, p, (r: Row) => Some(r.depth), Some(was.depth), Some(n.depth))
  }

  lemma {:induction false} LinkStep(rows: seq<Row>, p: string, was: Node, mid: Node, n: Node)
    requires rows != [] && LinkColumns(rows[1..], p, mid, n)
    requires mid.href == if was.href.None? && rows[0].path == p then rows[0].href else was.href
    requires mid.source == if was.source.None? && rows[0].path == p then rows[0].source else was.source
    ensures LinkColumns(rows, p, was, n)
  {
    hide FirstWins;
    FirstWinsStep(rows, p, (r: Row) => r.href, was.href, n.href);
    FirstWinsStep(rows, p, (r: Row) => r.source, was.source, n.source);
  }

  lemma {:induction false} RoleStep(rows: seq<Row>, p: string, was: Node, mid: Node, n: Node)
    requires rows != [] && RoleColumns(rows[1..], p, mid, n)
    requires mid.nodeType == if rows[0].path == p && rows[0].nodeType.Some? then rows[0].nodeType else was.nodeType
    requires mid.fileType == if rows[0].path == p && rows[0].fileType.Some? then rows[0].fileType else was.fileType
    requires mid.content == if rows[0].path == p && rows[0].content.Some? then rows[0].content else was.content
    ensures RoleColumns(rows, p, was, n)
  {
    hide LastWins;
    LastWinsStep(rows, p, (r: Row) => r.nodeType, was.nodeType, n.nodeType);
    LastWinsStep(rows, p, (r: Row) => r.fileType, was.fileType, n.fileType);
    LastWinsStep(rows, p, (r: Row) => r.content, was.content, n.content);
  }

  lemma {:induction false} PlaceStep(rows: seq<Row>, p: string, was: Node, mid: Node, n: Node)
    requires rows != [] && PlaceColumns(rows[1..], p, mid, n)
    requires mid.parent == if rows[0].path == p && rows[0].parentPath.Some? then rows[0].parentPath else was.parent
    requires mid.title == if rows[0].path == p && rows[0].title != "" then rows[0].title else was.title
    requires mid.sortOrder == if rows[0].path == p then rows[0].sortOrder else was.sortOrder
    requires mid.depth == if rows[0].path == p then rows[0].depth else was.depth
    ensures PlaceColumns(rows, p, was, n)
  {
    hide LastWins;
    LastWinsStep(rows, p, (r: Row) => r.parentPath, was.parent, n.parent);
    LastWinsStep(rows, p, (r: Row) => if r.title != "" then Some(r.title) else None, Some(was.title), Some(n.title));
    LastWinsStep(rows, p, (r: Row) => Some(r.sortOrder), Some(was.sortOrder), Some(n.sortOrder));
    LastWinsStep(rows, p, (r: Row) => Some(r.depth), Some(was.depth), Some(n.depth));
  }

  /**
    What a batch leaves at a path, by the positions of its rows. A stored link or source stays,
    else the first row that has one wins; the last non-null parent, role, file type and content
    win, the last title that is not empty, and the order and depth of the last row.
  */
  lemma {:induction false} BatchLeaves(t: Table, rows: seq<Row>, p: string)
    requires p in Apply(t, rows)
    ensures LinkColumns(rows, p, Was(t, p), Apply(t, rows)[p])
    ensures RoleColumns(rows, p, Was(t, p), Apply(t, rows)[p])
    ensures PlaceColumns(rows, p, Was(t, p), Apply(t, rows)[p])
    ensures Apply(t, rows)[p].rootOrder == Was(t, p).rootOrder
    decreases |rows|
  {
    if rows != [] {
      var next, n := Upsert(t, rows[0]), Apply(t, rows)[p];
      BatchLeaves(next, rows[1..], p);
      hide Apply, LinkColumns, RoleColumns, PlaceColumns;
      LinkStep(rows, p, Was(t, p), Was(next, p), n);
      RoleStep(rows, p, Was(t, p), Was(next, p), n);
      PlaceStep(rows, p, Was(t, p), Was(next, p), n);
    }
  }

  /** Replaying a batch over its own effect changes nothing. */
  lemma {:induction false} ReplayAbsorbed(t: Table, rows: seq<Row>)
    ensures Apply(Apply(t, rows), rows) == Apply(t, rows)
  {
    var once := Apply(t, rows);
    var twice := Apply(once, rows);
    forall p ensures p in twice <==> p in once
      ensures p in once ==> twice[p] == once[p]
    {
      ApplyAt(t, rows, p);
      ApplyAt(once, rows, p);
    }
  }

  /** A table ahead of its resume point: the rows already committed may be replayed. */
  lemma {:induction false} PrefixAbsorbed(t: Table, a: seq<Row>, b: seq<Row>)
    ensures Apply(Apply(t, a), a + b) == Apply(t, a + b)
  {
    ApplyAppend(Apply(t, a), a, b);
    ReplayAbsorbed(t, a);
    ApplyAppend(t, a, b);
  }

  // --------------------------------------------------------------- reconcile

  predicate HasChild(t: Table, p: string) {
    exists q :: q in t && t[q].parent == Some(p)
  }

  predicate HasPageChild(t: Table, p: string) {
    exists q :: q in t && t[q].parent == Some(p) && t[q].fileType.Some?
  }

  /** First UPDATE: an end_path row that parents a real page becomes intermediate. */
  function Promoted(n: Node, pageChild: bool): Node {
    if n.fileType == Some(EndPath) && pageChild
    then n.(fileType := Some(IntermediatePath), content := None,
            nodeType := if n.nodeType.None? || n.nodeType == Some(Leaf) then Some(Folder) else n.nodeType)
    else n
  }

  /** Second UPDATE: a page with no DOM role gets the one its file_type implies. */
  function Named(n: Node): Node {
    if n.nodeType.None? && (n.fileType == Some(EndPath) || n.fileType == Some(IntermediatePath))
    then n.(nodeType := Some(if n.fileType == Some(EndPath) then Leaf else Folder))
    else n
  }

  /** Third UPDATE: whatever parents a row is a folder. */
  function Foldered(n: Node, child: bool): Node {
    if n.nodeType == Some(Leaf) && child then n.(nodeType := Some(Folder)) else n
  }

  function PromotePages(t: Table): Table {
    map p | p in t :: Promoted(t[p], HasPageChild(t, p))
  }

  function NameRoles(t: Table): Table {
    map p | p in t :: Named(t[p])
  }

  function FolderParents(t: Table): Table {
    map p | p in t :: Foldered(t[p], HasChild(t, p))
  }

  function Reconcile(t: Table): Table {
    FolderParents(NameRoles(PromotePages(t)))
  }

  /** The three UPDATEs as they act on one row. */
  function Corrected(n: Node, pageChild: bool, child: bool): Node {
    Foldered(Named(Promoted(n, pageChild)), child)
  }

  /** Two tables with the same parent edges and the same real pages. */
  ghost predicate SameShape(t: Table, u: Table) {
    && t.Keys == u.Keys
    && forall p :: p in t ==> t[p].parent == u[p].parent && (t[p].fileType.Some? <==> u[p].fileType.Some?)
  }

  lemma {:induction false} SameShapeChildren(t: Table, u: Table, p: string)
    requires SameShape(t, u)
    ensures HasChild(t, p) == HasChild(u, p)
    ensures HasPageChild(t, p) == HasPageChild(u, p)
  {
    if HasChild(t, p) { var q :| q in t && t[q].parent == Some(p); assert q in u && u[q].parent == Some(p); }
    if HasChild(u, p) { var q :| q in u && u[q].parent == Some(p); assert q in t && t[q].parent == Some(p); }
    if HasPageChild(t, p) {
      var q :| q in t && t[q].parent == Some(p) && t[q].fileType.Some?;
      assert q in u && u[q].parent == Some(p) && u[q].fileType.Some?;
    }
    if HasPageChild(u, p) {
      var q :| q in u && u[q].parent == Some(p) && u[q].fileType.Some?;
      assert q in t && t[q].parent == Some(p) && t[q].fileType.Some?;
    }
  }

  lemma {:induction false} ReconcileShape(t: Table)
    ensures SameShape(t, Reconcile(t))
  {}

  lemma {:induction false} ReconcileAt(t: Table, p: string)
    requires p in t
    ensures Reconcile(t)[p] == Corrected(t[p], HasPageChild(t, p), HasChild(t, p))
  {
    var b := NameRoles(PromotePages(t));
    assert SameShape(t, b);
    SameShapeChildren(t, b, p);
    assert b[p] == Named(Promoted(t[p], HasPageChild(t, p)));
  }

  /**
    What the corrections promise: every parent of a real page is not an end page and
    keeps no content of its own promotion, every page has a DOM role and every row
    that parents another is not a leaf.
  */
  lemma {:induction false} ReconcileSettles(t: Table, p: string)
    requires p in t
    ensures HasPageChild(t, p) ==> Reconcile(t)[p].fileType != Some(EndPath)
    ensures HasChild(t, p) ==> Reconcile(t)[p].nodeType != Some(Leaf)
    ensures Reconcile(t)[p].nodeType.None? ==>
              t[p].nodeType.None? && (t[p].fileType.None? || t[p].fileType == Some(RootPath))
    ensures Reconcile(t)[p].nodeType == Some(Leaf) ==> !HasChild(t, p)
    ensures t[p].fileType == Some(EndPath) && HasPageChild(t, p) ==>
              Reconcile(t)[p].fileType == Some(IntermediatePath) && Reconcile(t)[p].content.None?
    ensures !(t[p].fileType == Some(EndPath) && HasPageChild(t, p)) ==>
              Reconcile(t)[p].fileType == t[p].fileType && Reconcile(t)[p].content == t[p].content
    ensures t[p].nodeType == Some(Root) ==> Reconcile(t)[p].nodeType == Some(Root)
    ensures t[p].nodeType.None? && t[p].fileType.Some? && t[p].fileType != Some(RootPath) ==>
              Reconcile(t)[p].nodeType
                == Some(if t[p].fileType == Some(EndPath) && !HasChild(t, p) then Leaf else Folder)
    ensures t[p].nodeType == Some(Leaf) ==> Reconcile(t)[p].nodeType == Some(if HasChild(t, p) then Folder else Leaf)
    ensures t[p].nodeType == Some(Folder) ==> Reconcile(t)[p].nodeType == Some(Folder)
    ensures Reconcile(t)[p] == t[p].(nodeType := Reconcile(t)[p].nodeType, fileType := Reconcile(t)[p].fileType,
                                     content := Reconcile(t)[p].content)
  {
    ReconcileAt(t, p);
    assert HasPageChild(t, p) ==> HasChild(t, p);
    assert t[p].fileType.Some? ==>
        t[p].fileType.value.RootPath? || t[p].fileType.value.IntermediatePath? || t[p].fileType.value.EndPath?;
  }

  // ------------------------------------------------------------- root order

  ghost function RootsBefore(t: Table, p: string): set<string> {
    set q | q in t && t[q].nodeType == Some(Root) && Before(q, p)
  }

  /** Roots are numbered by path; every other row's number is cleared. */
  ghost function AssignRootOrder(t: Table): Table {
    map p | p in t ::
      t[p].(rootOrder := if t[p].nodeType == Some(Root) then Some(|RootsBefore(t, p)|) else None)
  }

  ghost function Roots(t: Table): set<string> {
    set q | q in t && t[q].nodeType == Some(Root)
  }

  /** Root numbers are 0 .. count-1, distinct, and follow the order of the paths. */
  lemma {:induction false} RootOrderFollowsPaths(t: Table, p: string, q: string)
    requires p in Roots(t) && q in Roots(t)
    ensures AssignRootOrder(t)[p].rootOrder.Some? && AssignRootOrder(t)[p].rootOrder.value < |Roots(t)|
    ensures AssignRootOrder(t)[p].rootOrder.value < AssignRootOrder(t)[q].rootOrder.value <==> Before(p, q)
    ensures p != q ==> AssignRootOrder(t)[p].rootOrder != AssignRootOrder(t)[q].rootOrder
  {
    BeforeTotal(p, p);
    assert p !in RootsBefore(t, p);
    SubsetSize(RootsBefore(t, p), Roots(t));
    BeforeTotal(p, q);
    if Before(p, q) {
      RanksRise(t, p, q);
    } else if Before(q, p) {
      RanksRise(t, q, p);
    }
  }

  lemma {:induction false} RanksRise(t: Table, p: string, q: string)
    requires p in Roots(t) && Before(p, q)
    ensures |RootsBefore(t, p)| < |RootsBefore(t, q)|
  {
    BeforeTotal(p, p);
    forall x | x in RootsBefore(t, p) ensures x in RootsBefore(t, q) { BeforeTransitive(x, p, q); }
    assert p in RootsBefore(t, q) && p !in RootsBefore(t, p);
    SubsetSize(RootsBefore(t, p), RootsBefore(t, q));
  }

  // ------------------------------------------------ finishing and replaying

  ghost function Finish(t: Table): Table {
    AssignRootOrder(Reconcile(t))
  }

  /** Tables that differ at most in their root numbers. */
  ghost predicate Agree(t: Table, u: Table) {
    t.Keys == u.Keys && forall p :: p in t ==> t[p].(rootOrder := None) == u[p].(rootOrder := None)
  }

  lemma {:induction false} NumberingForgets(t: Table, u: Table)
    requires Agree(t, u)
    ensures AssignRootOrder(t) == AssignRootOrder(u)
  {
    forall p | p in t ensures t[p].nodeType == u[p].nodeType && u[p] == t[p].(rootOrder := u[p].rootOrder) {
      assert t[p].(rootOrder := None) == u[p].(rootOrder := None);
    }
    forall p | p in t ensures RootsBefore(t, p) == RootsBefore(u, p) {}
  }

  lemma {:induction false} ReconcileAgreeAt(t: Table, u: Table, p: string)
    requires Agree(t, u) && SameShape(t, u) && p in t
    ensures Reconcile(t)[p].(rootOrder := None) == Reconcile(u)[p].(rootOrder := None)
  {
    ReconcileAt(t, p);
    ReconcileAt(u, p);
    SameShapeChildren(t, u, p);
    CorrectedKeepsOrder(t[p], u[p].rootOrder, HasPageChild(t, p), HasChild(t, p));
    assert u[p] == t[p].(rootOrder := u[p].rootOrder) by {
      assert t[p].(rootOrder := None) == u[p].(rootOrder := None);
    }
  }

  lemma {:induction false} CorrectedKeepsOrder(n: Node, order: Option<nat>, pageChild: bool, child: bool)
    ensures Corrected(n.(rootOrder := order), pageChild, child) == Corrected(n, pageChild, child).(rootOrder := order)
  {}

  lemma {:induction false} AgreeShape(t: Table, u: Table)
    requires Agree(t, u)
    ensures SameShape(t, u)
  {
    forall p | p in t ensures t[p].parent == u[p].parent && t[p].fileType == u[p].fileType {
      assert t[p].(rootOrder := None) == u[p].(rootOrder := None);
    }
  }

  lemma {:induction false} FinishForgets(t: Table, u: Table)
    requires Agree(t, u)
    ensures Finish(t) == Finish(u)
  {
    AgreeShape(t, u);
    forall p | p in t
      ensures Reconcile(t)[p].(rootOrder := None) == Reconcile(u)[p].(rootOrder := None)
    {
      ReconcileAgreeAt(t, u, p);
    }
    NumberingForgets(Reconcile(t), Reconcile(u));
  }

  lemma {:induction false} ApplyAgree(t: Table, u: Table, rows: seq<Row>)
    requires Agree(t, u)
    ensures Agree(Apply(t, rows), Apply(u, rows))
  {
    forall p ensures p in Apply(t, rows) <==> p in Apply(u, rows)
      ensures p in Apply(t, rows) ==>
                Apply(t, rows)[p].(rootOrder := None) == Apply(u, rows)[p].(rootOrder := None)
    {
      ApplyAt(t, rows, p);
      ApplyAt(u, rows, p);
      assert p in t ==> t[p].(rootOrder := None) == u[p].(rootOrder := None);
    }
  }

  /** The fact about parsing that replay rests on: only a row that is a real page carries content. */
  ghost predicate ContentTyped(rows: seq<Row>) {
    forall r :: r in rows ==> (r.content.Some? ==> r.fileType.Some?)
  }

  lemma {:induction false} SummaryTyped(rows: seq<Row>, p: string)
    requires ContentTyped(rows)
    ensures Summary(rows, p).Some? && Summary(rows, p).value.content.Some? ==> Summary(rows, p).value.fileType.Some?
    decreases |rows|
  {
    if rows != [] {
      assert forall r :: r in rows[1..] ==> r in rows;
      SummaryTyped(rows[1..], p);
      assert rows[0] in rows;
    }
  }

  lemma {:induction false} CorrectedAbsorbs(o: Node, s: Node, pageChild: bool, child: bool)
    requires s.content.Some? ==> s.fileType.Some?
    requires pageChild ==> child
    ensures Corrected(Over(Corrected(Over(o, s), pageChild, child), s), pageChild, child)
         == Corrected(Over(o, s), pageChild, child)
  {}

  lemma {:induction false} CorrectedTwice(n: Node, pageChild: bool, child: bool)
    requires pageChild ==> child
    ensures Corrected(Corrected(n, pageChild, child), pageChild, child) == Corrected(n, pageChild, child)
  {}

  lemma {:induction false} ReplayShape(t: Table, rows: seq<Row>)
    ensures SameShape(Apply(t, rows), Apply(Reconcile(Apply(t, rows)), rows))
  {
    var f := Apply(t, rows);
    var g := Reconcile(f);
    var h := Apply(g, rows);
    ReconcileShape(f);
    forall p
      ensures p in h <==> p in f
      ensures p in f ==> h[p].parent == f[p].parent && (h[p].fileType.Some? <==> f[p].fileType.Some?)
    {
      ApplyAt(t, rows, p);
      ApplyAt(g, rows, p);
    }
  }

  lemma {:induction false} ReplayAt(t: Table, rows: seq<Row>, p: string)
    requires ContentTyped(rows)
    requires p in Apply(t, rows) && p in Apply(Reconcile(Apply(t, rows)), rows)
    ensures Reconcile(Apply(Reconcile(Apply(t, rows)), rows))[p] == Reconcile(Apply(t, rows))[p]
  {
    var f := Apply(t, rows);
    var h := Apply(Reconcile(f), rows);
    var pageChild, child := HasPageChild(f, p), HasChild(f, p);
    ReplayShape(t, rows);
    SameShapeChildren(f, h, p);
    ReconcileAt(f, p);
    ReconcileAt(h, p);
    ApplyAt(t, rows, p);
    ApplyAt(Reconcile(f), rows, p);
    assert pageChild ==> child;
    match Summary(rows, p) {
      case None => CorrectedTwice(f[p], pageChild, child);
      case Some(s) =>
        SummaryTyped(rows, p);
        CorrectedAbsorbs(Was(t, p), s, pageChild, child);
    }
  }

  /** Replay over a reconciled table undoes promotions, yet reconciling again restores them. */
  lemma {:induction false} ReplayThroughReconcile(t: Table, rows: seq<Row>)
    requires ContentTyped(rows)
    ensures Reconcile(Apply(Reconcile(Apply(t, rows)), rows)) == Reconcile(Apply(t, rows))
  {
    var f := Apply(t, rows);
    ReplayShape(t, rows);
    forall p | p in f ensures Reconcile(Apply(Reconcile(f), rows))[p] == Reconcile(f)[p] {
      ReplayAt(t, rows, p);
    }
  }

  /** The same for any table a finishing run may have committed: before, between or after its two passes. */
  lemma {:induction false} ReplayThroughFinish(t: Table, rows: seq<Row>, committed: Table)
    requires ContentTyped(rows)
    requires committed == Reconcile(Apply(t, rows)) || committed == Finish(Apply(t, rows))
    ensures Finish(Apply(committed, rows)) == Finish(Apply(t, rows))
  {
    var g := Reconcile(Apply(t, rows));
    ReplayThroughReconcile(t, rows);
    assert Agree(committed, g);
    ApplyAgree(committed, g, rows);
    FinishForgets(Apply(committed, rows), Apply(g, rows));
  }
}
