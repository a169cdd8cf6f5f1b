/**
  Building the parts catalogue of one frame: which pages are served, which tree rows are
  kept, the order in which they are emitted, and what holds of the rows that come out.
*/
module Parts {
  import opened Wrappers
  import opened Links

  // -------------------------------------------------------------- staged rows

  datatype RawRow = RawRow(callout: string, pn: string, pnDisplay: string, name: string, qty: string)

  datatype Quantity = Count(n: nat) | AsRequired

  datatype Reason = MissingPn | QtyUnparsed | MissingQty | MissingName

  datatype Class = Class(quantity: Option<Quantity>, xref: bool, valid: bool, reason: Option<Reason>)

  predicate Digits(s: string) {
    s != "" && forall i :: 0 <= i < |s| ==> '0' <= s[i] <= '9'
  }

  function ValueOf(s: string): (n: nat)
    requires Digits(s)
  {
    var last := (s[|s| - 1] - '0') as nat;
    if |s| == 1 then last else ValueOf(s[..|s| - 1]) * 10 + last
  }

  /** A number of up to three digits after leading zeros, an X and up to three digits, or a lone X. */
  function QuantityOf(raw: string): (q: Option<Quantity>)
    ensures q.Some? && q.value.Count? ==> q.value.n < 1000
  {
    if Digits(raw) && ValueOf(raw) < 1000 then Some(Count(ValueOf(raw)))
    else if raw != "" && raw[0] in {'X', 'x'} then
      if |raw| == 1 then Some(AsRequired)
      else if |raw| <= 4 && Digits(raw[1..]) && ValueOf(raw[1..]) < 1000 then Some(Count(ValueOf(raw[1..])))
      else None
    else None
  }

  /** classify_row. A row is published exactly when it is a cross reference or complete. */
  function Classify(row: RawRow): (c: Class)
    ensures c.valid <==> c.xref || (row.pn != "" && QuantityOf(row.qty).Some? && row.name != "")
    ensures c.valid <==> c.reason.None?
    ensures c.xref <==> row.name == "" && row.qty == "" && row.callout in {row.pn, row.pnDisplay}
    ensures c.valid && !c.xref ==> c.quantity == QuantityOf(row.qty)
    ensures c.reason == Some(MissingPn) <==> !c.xref && row.pn == ""
    ensures c.reason == Some(QtyUnparsed) <==> row.pn != "" && row.qty != "" && QuantityOf(row.qty).None?
    ensures c.reason == Some(MissingQty) <==> !c.xref && row.pn != "" && row.qty == ""
  {
    if row.name == "" && row.qty == "" && row.callout in {row.pn, row.pnDisplay} then Class(None, true, true, None)
    else if row.pn == "" then Class(None, false, false, Some(MissingPn))
    else
      var quantity := QuantityOf(row.qty);
      if quantity.None? then Class(None, false, false, Some(if row.qty != "" then QtyUnparsed else MissingQty))
      else if row.name == "" then Class(quantity, false, false, Some(MissingName))
      else Class(quantity, false, true, None)
  }

  datatype Section = Section(figure: string, imageExists: bool, rows: seq<RawRow>)

  /** One row of group_tree; a parent id may name no row, and parents may form a cycle. */
  datatype TreeRow = TreeRow(parent: Option<nat>, title: string, gid: Option<nat>, isLeaf: bool, pageOk: bool,
                             sections: seq<Section>)

  /** A frame and its tree: `order` lists the ids of the rows in document order. */
  datatype Frame = Frame(code: string, order: seq<nat>, tree: map<nat, TreeRow>)

  ghost predicate Distinct<T(!new)>(s: seq<T>) {
    forall i, j :: 0 <= i < j < |s| ==> s[i] != s[j]
  }

  ghost predicate Staged(fr: Frame) {
    Distinct(fr.order) && forall t :: t in fr.order <==> t in fr.tree
  }

  // ---------------------------------------------------------- what is published

  datatype Published = Published(raw: RawRow, status: Class)

  datatype Served = Served(section: Section, rows: seq<Published>)

  function KeptRows(rows: seq<RawRow>): (kept: seq<Published>)
    ensures forall p :: p in kept ==> p.status == Classify(p.raw) && (p.status.valid || p.status.xref)
  {
    if rows == [] then []
    else (if Classify(rows[0]).valid || Classify(rows[0]).xref then [Published(rows[0], Classify(rows[0]))] else [])
         + KeptRows(rows[1..])
  }

  function KeptSections(sections: seq<Section>): (kept: seq<Served>)
    ensures forall s :: s in kept ==> s.section.imageExists && s.rows == KeptRows(s.section.rows) && s.rows != []
  {
    if sections == [] then []
    else
      var rows := KeptRows(sections[0].rows);
      (if sections[0].imageExists && rows != [] then [Served(sections[0], rows)] else []) + KeptSections(sections[1..])
  }

  ghost predicate Climbing(at: seq<nat>) {
    forall i, j :: 0 <= i < j < |at| ==> at[i] < at[j]
  }

  ghost predicate OnlyWanted(at: seq<nat>, wanted: seq<bool>) {
    forall i :: 0 <= i < |at| ==> at[i] < |wanted| && wanted[at[i]]
  }

  ghost predicate AllWanted(at: seq<nat>, wanted: seq<bool>) {
    forall k :: 0 <= k < |wanted| && wanted[k] ==> k in at
  }

  /** Rising positions, exactly those that are wanted. */
  ghost predicate Picks(at: seq<nat>, wanted: seq<bool>) {
    Climbing(at) && OnlyWanted(at, wanted) && AllWanted(at, wanted)
  }

  function OneOn(at: seq<nat>): (next: seq<nat>)
    ensures |next| == |at| && forall i :: 0 <= i < |at| ==> next[i] == at[i] + 1
  {
    seq(|at|, i requires 0 <= i < |at| => at[i] + 1)
  }

  lemma {:induction false} AllWantedOneMore(at: seq<nat>, first: bool, wanted: seq<bool>)
    requires AllWanted(at, wanted)
    ensures AllWanted((if first then [0] else []) + OneOn(at), [first] + wanted)
  {
    hide OneOn;
    var later, all := OneOn(at), [first] + wanted;
    forall k | 0 <= k < |all| && all[k] ensures k in (if first then [0] else []) + later {
      if k > 0 {
        assert wanted[k - 1];
        var i :| 0 <= i < |at| && at[i] == k - 1;
        assert later[i] in later;
      }
    }
  }

  lemma {:induction false} PicksOneMore(at: seq<nat>, first: bool, wanted: seq<bool>)
    requires Picks(at, wanted)
    ensures Picks((if first then [0] else []) + OneOn(at), [first] + wanted)
  {
    AllWantedOneMore(at, first, wanted);
    hide OneOn, Climbing, OnlyWanted, AllWanted;
  }

  /** `kept` is what stands at those positions. */
  ghost predicate Selects<T(!new)>(at: seq<nat>, all: seq<T>, kept: seq<T>) {
    |at| == |kept| && forall i :: 0 <= i < |at| ==> at[i] < |all| && kept[i] == all[at[i]]
  }

  lemma {:induction false} SelectsOneMore<T(!new)>(at: seq<nat>, first: bool, item: T, all: seq<T>, kept: seq<T>)
    requires Selects(at, all, kept)
    ensures Selects((if first then [0] else []) + OneOn(at), [item] + all, (if first then [item] else []) + kept)
  {}

  function Classified(rows: seq<RawRow>): (all: seq<Published>)
    ensures |all| == |rows| && forall i :: 0 <= i < |rows| ==> all[i] == Published(rows[i], Classify(rows[i]))
  {
    if rows == [] then [] else [Published(rows[0], Classify(rows[0]))] + Classified(rows[1..])
  }

  function Publishable(rows: seq<RawRow>): (wanted: seq<bool>)
    ensures |wanted| == |rows| && forall i :: 0 <= i < |rows| ==>
         (wanted[i] <==> Classify(rows[i]).valid || Classify(rows[i]).xref)
  {
    if rows == [] then [] else [Classify(rows[0]).valid || Classify(rows[0]).xref] + Publishable(rows[1..])
  }

  /** Every publishable row is kept, in its place, and no other. */
  lemma {:induction false} KeptRowsInOrder(rows: seq<RawRow>) returns (at: seq<nat>)
    ensures Picks(at, Publishable(rows)) && Selects(at, Classified(rows), KeptRows(rows))
  {
    if rows == [] {
      at := [];
    } else {
      var first := Classify(rows[0]).valid || Classify(rows[0]).xref;
      hide Classify, Picks, Selects;
      var rest := KeptRowsInOrder(rows[1..]);
      PicksOneMore(rest, first, Publishable(rows[1..]));
      SelectsOneMore(rest, first, Classified(rows)[0], Classified(rows[1..]), KeptRows(rows[1..]));
      at := (if first then [0] else []) + OneOn(rest);
    }
  }

  function WithKeptRows(sections: seq<Section>): (all: seq<Served>)
    ensures |all| == |sections| && forall i :: 0 <= i < |sections| ==>
         all[i] == Served(sections[i], KeptRows(sections[i].rows))
  {
    if sections == [] then [] else [Served(sections[0], KeptRows(sections[0].rows))] + WithKeptRows(sections[1..])
  }

  function Presentable(sections: seq<Section>): (wanted: seq<bool>)
    ensures |wanted| == |sections|
    ensures forall i :: 0 <= i < |sections| ==>
         (wanted[i] <==> sections[i].imageExists && KeptRows(sections[i].rows) != [])
  {
    if sections == [] then []
    else [sections[0].imageExists && KeptRows(sections[0].rows) != []] + Presentable(sections[1..])
  }

  /**
    Every section with an image and a published row is kept, in its place and with all its published
    rows, and no other.
  */
  lemma {:induction false} KeptSectionsInOrder(sections: seq<Section>) returns (at: seq<nat>)
    ensures Picks(at, Presentable(sections)) && Selects(at, WithKeptRows(sections), KeptSections(sections))
  {
    if sections == [] {
      at := [];
    } else {
      var first := sections[0].imageExists && KeptRows(sections[0].rows) != [];
      hide KeptRows, Picks, Selects;
      var rest := KeptSectionsInOrder(sections[1..]);
      PicksOneMore(rest, first, Presentable(sections[1..]));
      SelectsOneMore(rest, first, WithKeptRows(sections)[0], WithKeptRows(sections[1..]), KeptSections(sections[1..]));
      at := (if first then [0] else []) + OneOn(rest);
    }
  }

  /** A leaf whose page is good and has a section with an image and a row. */
  predicate Servable(fr: Frame, t: nat) {
    t in fr.tree && fr.tree[t].isLeaf && fr.tree[t].pageOk && KeptSections(fr.tree[t].sections) != []
  }

  function Parents(fr: Frame): Links {
    map t | t in fr.tree :: fr.tree[t].parent
  }

  /** keep_ids: what is at or above a servable leaf. */
  ghost predicate Kept(fr: Frame, x: nat) {
    x in fr.tree && exists t :: Servable(fr, t) && AtOrAbove(Parents(fr), x, t)
  }

  ghost function KeptIds(fr: Frame): set<nat> {
    set x | x in fr.tree && Kept(fr, x)
  }

  // ------------------------------------------------------------------- titles

  function Decimal(n: nat): string {
    var digit := [('0' as int + n % 10) as char];
    if n < 10 then digit else Decimal(n / 10) + digit
  }

  predicate SharesTitle(fr: Frame, keep: set<nat>, t: nat)
    requires t in fr.tree
  {
    exists u :: u in keep && u in fr.tree && u != t && fr.tree[u].parent == fr.tree[t].parent
      && fr.tree[u].title == fr.tree[t].title
  }

  /** The label, told apart from kept siblings of the same label by the gid or the tree id; empty for an unknown row. */
  function TitleOf(fr: Frame, keep: set<nat>, t: nat): string {
    if t !in fr.tree then "" else
    var row := fr.tree[t];
    if !SharesTitle(fr, keep, t) then row.title
    else if row.gid.Some? && row.gid.value != 0 then row.title + " (" + Decimal(row.gid.value) + ")"
    else row.title + " #" + Decimal(t)
  }

  // ----------------------------------------------------------------- emission

  function Last(chain: seq<nat>): Option<nat> {
    if chain == [] then None else Some(chain[|chain| - 1])
  }

  /** A path down the tree from the top. */
  ghost predicate Chain(fr: Frame, chain: seq<nat>) {
    forall i :: 0 <= i < |chain| ==> chain[i] in fr.tree && fr.tree[chain[i]].parent == Last(chain[..i])
  }

  /** Rows of the tree, in order, that are kept and hang on `parent`. */
  function KidsOf(fr: Frame, keep: set<nat>, order: seq<nat>, parent: Option<nat>): (kids: seq<nat>)
    ensures forall k :: k in kids <==> k in order && k in keep && k in fr.tree && fr.tree[k].parent == parent
  {
    if order == [] then []
    else (if order[0] in keep && order[0] in fr.tree && fr.tree[order[0]].parent == parent then [order[0]] else [])
         + KidsOf(fr, keep, order[1..], parent)
  }

  function Kids(fr: Frame, keep: set<nat>, chain: seq<nat>): seq<nat> {
    KidsOf(fr, keep, fr.order, Last(chain))
  }

  lemma {:induction false} ChainExtends(fr: Frame, chain: seq<nat>, k: nat)
    requires Chain(fr, chain) && k in fr.tree && fr.tree[k].parent == Last(chain)
    ensures Chain(fr, chain + [k])
  {
    var c := chain + [k];
    forall i | 0 <= i < |c| ensures c[i] in fr.tree && fr.tree[c[i]].parent == Last(c[..i]) {
      if i < |chain| { assert c[..i] == chain[..i]; } else { assert c[..i] == chain; }
    }
  }

  lemma {:induction false} ChainPrefix(fr: Frame, chain: seq<nat>, n: nat)
    requires Chain(fr, chain) && n <= |chain|
    ensures Chain(fr, chain[..n])
  {
    forall i | 0 <= i < n ensures fr.tree[chain[..n][i]].parent == Last(chain[..n][..i]) {
      assert chain[..n][..i] == chain[..i];
    }
  }

  /** A path from the top meets no row twice, even when some parents form a cycle. */
  lemma {:induction false} ChainDistinct(fr: Frame, chain: seq<nat>, i: nat, j: nat)
    requires Chain(fr, chain) && i < j < |chain|
    ensures chain[i] != chain[j]
    decreases i
  {
    if chain[i] == chain[j] {
      assert Last(chain[..i]) == Last(chain[..j]);
      if i > 0 {
        ChainDistinct(fr, chain, i - 1, j - 1);
      }
    }
  }

  lemma {:induction false} DistinctFits(s: seq<nat>, within: set<nat>)
    requires Distinct(s) && forall x :: x in s ==> x in within
    ensures |s| <= |within|
  {
    if s != [] {
      var x := s[|s| - 1];
      assert x in s;
      DistinctFits(s[..|s| - 1], within - {x});
    }
  }

  lemma {:induction false} ChainShort(fr: Frame, chain: seq<nat>)
    requires Chain(fr, chain)
    ensures |chain| <= |fr.tree|
  {
    forall i, j | 0 <= i < j < |chain| ensures chain[i] != chain[j] { ChainDistinct(fr, chain, i, j); }
    DistinctFits(chain, fr.tree.Keys);
  }

  /** Two paths from the top that end in the same row are the same. */
  lemma {:induction false} ChainUnique(fr: Frame, a: seq<nat>, b: seq<nat>)
    requires Chain(fr, a) && Chain(fr, b) && Last(a) == Last(b)
    ensures a == b
    decreases |a|
  {
    if a != [] {
      var m, n := |a| - 1, |b| - 1;
      ChainPrefix(fr, a, m);
      ChainPrefix(fr, b, n);
      assert Last(a[..m]) == Last(b[..n]);
      ChainUnique(fr, a[..m], b[..n]);
      assert a == a[..m] + [a[m]] && b == b[..n] + [b[n]];
    }
  }

  ghost predicate KidList(fr: Frame, chain: seq<nat>, kids: seq<nat>) {
    forall k :: k in kids ==> k in fr.tree && fr.tree[k].parent == Last(chain)
  }

  lemma {:induction false} KidListTail(fr: Frame, chain: seq<nat>, kids: seq<nat>)
    requires KidList(fr, chain, kids) && kids != []
    ensures kids[0] in fr.tree && fr.tree[kids[0]].parent == Last(chain) && KidList(fr, chain, kids[1..])
  {
    assert kids[0] in kids;
  }

  /** emit(last of `chain`): the rows it inserts, each as its path from the top, in order. */
  ghost function EmitFrom(fr: Frame, keep: set<nat>, chain: seq<nat>): seq<seq<nat>>
    requires Chain(fr, chain)
    decreases |fr.tree| - |chain|, 1, 0
  {
    ChainShort(fr, chain);
    [chain] + EmitKids(fr, keep, chain, Kids(fr, keep, chain))
  }

  ghost function EmitKids(fr: Frame, keep: set<nat>, chain: seq<nat>, kids: seq<nat>): seq<seq<nat>>
    requires Chain(fr, chain) && KidList(fr, chain, kids)
    decreases |fr.tree| - |chain|, 0, |kids|
  {
    if kids == [] then []
    else
      ChainExtends(fr, chain, kids[0]);
      ChainShort(fr, chain + [kids[0]]);
      EmitFrom(fr, keep, chain + [kids[0]]) + EmitKids(fr, keep, chain, kids[1..])
  }

  /** Everything below the frame's root. */
  ghost function Emission(fr: Frame, keep: set<nat>): seq<seq<nat>> {
    EmitKids(fr, keep, [], Kids(fr, keep, []))
  }

  /** `c` continues `chain`, through kept rows only. */
  ghost predicate Continues(keep: set<nat>, chain: seq<nat>, c: seq<nat>) {
    chain <= c && forall i :: |chain| <= i < |c| ==> c[i] in keep
  }

  lemma {:induction false} EmitFromMember(fr: Frame, keep: set<nat>, chain: seq<nat>, c: seq<nat>)
    requires Staged(fr) && Chain(fr, chain)
    ensures c in EmitFrom(fr, keep, chain) <==> Chain(fr, c) && Continues(keep, chain, c)
    decreases |fr.tree| - |chain|, 1, 0
  {
    hide Continues, Chain, KidsOf;
    ChainShort(fr, chain);
    var kids := Kids(fr, keep, chain);
    EmitKidsMember(fr, keep, chain, kids, c);
    if Chain(fr, c) { ContinuesStep(fr, keep, chain, c); }
  }

  lemma {:induction false} ContinuesStep(fr: Frame, keep: set<nat>, chain: seq<nat>, c: seq<nat>)
    requires Staged(fr) && Chain(fr, c)
    ensures Continues(keep, chain, c) <==>
              c == chain || (chain < c && c[|chain|] in Kids(fr, keep, chain)
                             && Continues(keep, chain + [c[|chain|]], c))
  {
    if chain < c {
      var k := c[|chain|];
      assert c[..|chain|] == chain;
      assert k in fr.order;
      assert chain + [k] <= c;
    }
  }

  lemma {:induction false} EmitKidsMember(fr: Frame, keep: set<nat>, chain: seq<nat>, kids: seq<nat>, c: seq<nat>)
    requires Staged(fr) && Chain(fr, chain) && KidList(fr, chain, kids)
    ensures c in EmitKids(fr, keep, chain, kids) <==>
              Chain(fr, c) && chain < c && c[|chain|] in kids && Continues(keep, chain + [c[|chain|]], c)
    decreases |fr.tree| - |chain|, 0, |kids|
  {
    hide Chain, KidList;
    if kids != [] {
      var k := kids[0];
      KidListTail(fr, chain, kids);
      ChainExtends(fr, chain, k);
      ChainShort(fr, chain + [k]);
      EmitFromMember(fr, keep, chain + [k], c);
      EmitKidsMember(fr, keep, chain, kids[1..], c);
      assert kids == [k] + kids[1..];
      assert chain + [k] <= c ==> chain < c && c[|chain|] == k;
    }
  }

  // -------------------------------------------------- kept rows and the top

  lemma {:induction false} KeptAbove(fr: Frame, x: nat, p: nat)
    requires Kept(fr, x) && fr.tree[x].parent == Some(p) && p in fr.tree
    ensures Kept(fr, p)
  {
    var t :| Servable(fr, t) && AtOrAbove(Parents(fr), x, t);
    assert Up(Parents(fr), x, 0) == Some(x) && Up(Parents(fr), x, 1) == Some(p);
    var i: nat :| Up(Parents(fr), t, i) == Some(x);
    assert Up(Parents(fr), t, i + 1) == Some(p);
  }

  lemma {:induction false} KeptChain(fr: Frame, c: seq<nat>, i: nat)
    requires Chain(fr, c) && i < |c| && Kept(fr, c[|c| - 1])
    ensures Kept(fr, c[i])
    decreases |c| - i
  {
    if i < |c| - 1 {
      KeptChain(fr, c, i + 1);
      assert Last(c[..i + 1]) == Some(c[i]);
      KeptAbove(fr, c[i + 1], c[i]);
    }
  }

  /** What is emitted: the paths from the top that end in a kept row. */
  lemma {:induction false} EmittedPaths(fr: Frame, c: seq<nat>)
    requires Staged(fr)
    ensures c in Emission(fr, KeptIds(fr)) <==> c != [] && Chain(fr, c) && Kept(fr, c[|c| - 1])
  {
    var keep := KeptIds(fr);
    EmitKidsMember(fr, keep, [], Kids(fr, keep, []), c);
    if c != [] && Chain(fr, c) {
      ContinuesStep(fr, keep, [], c);
      if Kept(fr, c[|c| - 1]) {
        forall i | 0 <= i < |c| ensures c[i] in keep { KeptChain(fr, c, i); }
        assert Continues(keep, [], c);
      }
      if c in Emission(fr, keep) {
        assert Continues(keep, [], c);
      }
    }
  }

  lemma {:induction false} EmitFromDistinct(fr: Frame, keep: set<nat>, chain: seq<nat>)
    requires Staged(fr) && Chain(fr, chain)
    ensures Distinct(EmitFrom(fr, keep, chain))
    decreases |fr.tree| - |chain|, 1, 0
  {
    hide Chain;
    ChainShort(fr, chain);
    var kids := Kids(fr, keep, chain);
    KidsDistinct(fr, keep, fr.order, Last(chain));
    EmitKidsDistinct(fr, keep, chain, kids);
    EmitKidsMember(fr, keep, chain, kids, chain);
    JoinDistinct([chain], EmitKids(fr, keep, chain, kids));
  }

  lemma {:induction false} NotAmongOthers(fr: Frame, keep: set<nat>, chain: seq<nat>, kids: seq<nat>, c: seq<nat>)
    requires Staged(fr) && Chain(fr, chain) && KidList(fr, chain, kids) && Distinct(kids) && kids != []
    requires Chain(fr, chain + [kids[0]]) && KidList(fr, chain, kids[1..])
    requires c in EmitFrom(fr, keep, chain + [kids[0]])
    ensures c !in EmitKids(fr, keep, chain, kids[1..])
  {
    hide Chain, KidList, EmitFrom, EmitKids, Staged;
    EmitFromMember(fr, keep, chain + [kids[0]], c);
    EmitKidsMember(fr, keep, chain, kids[1..], c);
    assert c[|chain|] == kids[0];
  }

  lemma {:induction false} EmitKidsDistinct(fr: Frame, keep: set<nat>, chain: seq<nat>, kids: seq<nat>)
    requires Staged(fr) && Chain(fr, chain) && KidList(fr, chain, kids)
    requires Distinct(kids)
    ensures Distinct(EmitKids(fr, keep, chain, kids))
    decreases |fr.tree| - |chain|, 0, |kids|
  {
    hide Chain, KidList, Continues;
    if kids != [] {
      var k := kids[0];
      KidListTail(fr, chain, kids);
      ChainExtends(fr, chain, k);
      ChainShort(fr, chain + [k]);
      EmitFromDistinct(fr, keep, chain + [k]);
      EmitKidsDistinct(fr, keep, chain, kids[1..]);
      forall c | c in EmitFrom(fr, keep, chain + [k]) ensures c !in EmitKids(fr, keep, chain, kids[1..]) {
        NotAmongOthers(fr, keep, chain, kids, c);
      }
      JoinDistinct(EmitFrom(fr, keep, chain + [k]), EmitKids(fr, keep, chain, kids[1..]));
    }
  }

  lemma {:induction false} KidsDistinct(fr: Frame, keep: set<nat>, order: seq<nat>, parent: Option<nat>)
    requires Distinct(order)
    ensures Distinct(KidsOf(fr, keep, order, parent))
  {
    if order != [] {
      KidsDistinct(fr, keep, order[1..], parent);
      assert forall i :: 0 <= i < |order[1..]| ==> order[1..][i] == order[i + 1];
      var head := if order[0] in keep && order[0] in fr.tree && fr.tree[order[0]].parent == parent
                  then [order[0]] else [];
      JoinDistinct(head, KidsOf(fr, keep, order[1..], parent));
    }
  }

  lemma {:induction false} JoinDistinct<T(!new)>(a: seq<T>, b: seq<T>)
    requires Distinct(a) && Distinct(b) && forall x :: x in a ==> x !in b
    ensures Distinct(a + b)
  {
    forall i, j | 0 <= i < j < |a + b| ensures (a + b)[i] != (a + b)[j] {
      if i < |a| <= j { assert (a + b)[i] in a && (a + b)[j] in b; }
    }
  }

  lemma {:induction false} EmissionDistinct(fr: Frame)
    requires Staged(fr)
    ensures Distinct(Emission(fr, KeptIds(fr)))
  {
    var keep := KeptIds(fr);
    KidsDistinct(fr, keep, fr.order, None);
    EmitKidsDistinct(fr, keep, [], Kids(fr, keep, []));
  }

  ghost predicate ReachesTop(fr: Frame, x: nat) {
    exists c :: Chain(fr, c) && Last(c) == Some(x)
  }

  /** The position of `x` in what is emitted. */
  ghost predicate EmittedAt(emission: seq<seq<nat>>, x: nat, k: nat) {
    k < |emission| && Last(emission[k]) == Some(x)
  }

  /**
    Every kept row whose parents lead to the top is emitted, once; rows under a missing parent
    or on a cycle are not.
  */
  lemma {:induction false} EmittedOnce(fr: Frame, x: nat)
    requires Staged(fr)
    ensures var e := Emission(fr, KeptIds(fr));
            && ((exists k: nat :: EmittedAt(e, x, k)) <==> Kept(fr, x) && ReachesTop(fr, x))
            && (forall i: nat, j: nat :: EmittedAt(e, x, i) && EmittedAt(e, x, j) ==> i == j)
  {
    var keep := KeptIds(fr);
    var e := Emission(fr, keep);
    EmissionDistinct(fr);
    forall k: nat | EmittedAt(e, x, k) ensures Kept(fr, x) && Chain(fr, e[k]) {
      EmittedPaths(fr, e[k]);
    }
    forall i: nat, j: nat | EmittedAt(e, x, i) && EmittedAt(e, x, j) ensures i == j {
      ChainUnique(fr, e[i], e[j]);
    }
    if Kept(fr, x) && ReachesTop(fr, x) {
      var c :| Chain(fr, c) && Last(c) == Some(x);
      EmittedPaths(fr, c);
      var k :| 0 <= k < |e| && e[k] == c;
      assert EmittedAt(e, x, k);
    }
  }

  /** Below a kept row that is not itself served hangs another kept row. */
  lemma {:induction false} KeptHasKid(fr: Frame, x: nat) returns (k: nat)
    requires Kept(fr, x) && !Servable(fr, x)
    ensures Kept(fr, k) && fr.tree[k].parent == Some(x)
  {
    var links := Parents(fr);
    var t :| Servable(fr, t) && AtOrAbove(links, x, t);
    var n: nat :| Up(links, t, n) == Some(x);
    UpDefined(links, t, n - 1, n);
    k := Up(links, t, n - 1).value;
    assert AtOrAbove(links, k, t);
  }
}
