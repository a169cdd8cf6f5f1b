/** Parent pointers: walking up, walking down, and the absence of cycles. */
module Links {
  import opened Wrappers

  /** Each item's parent; a parent need not be an item itself. */
  type Links = map<nat, Option<nat>>

  /** The item `k` steps above `x`. */
  ghost function Up(links: Links, x: nat, k: nat): Option<nat> {
    if k == 0 then Some(x)
    else
      var y := Up(links, x, k - 1);
      if y.Some? && y.value in links then links[y.value] else None
  }

  ghost predicate AtOrAbove(links: Links, a: nat, x: nat) {
    exists k: nat :: Up(links, x, k) == Some(a)
  }

  ghost predicate Above(links: Links, a: nat, x: nat) {
    exists k: nat :: k > 0 && Up(links, x, k) == Some(a)
  }

  ghost predicate Acyclic(links: Links) {
    forall x :: x in links ==> !Above(links, x, x)
  }

  lemma {:induction false} UpCompose(links: Links, x: nat, i: nat, j: nat)
    requires Up(links, x, i).Some?
    ensures Up(links, x, i + j) == Up(links, Up(links, x, i).value, j)
  {
    if j > 0 { UpCompose(links, x, i, j - 1); }
  }

  /** `a` is above `x` exactly when it is `x`'s parent or above it. */
  lemma {:induction false} AboveStep(links: Links, a: nat, x: nat)
    ensures Above(links, a, x) <==> x in links && links[x].Some? && AtOrAbove(links, a, links[x].value)
    ensures AtOrAbove(links, a, x) <==> a == x || Above(links, a, x)
  {
    assert Up(links, x, 0) == Some(x);
    assert Up(links, x, 1) == if x in links then links[x] else None;
    if Above(links, a, x) {
      var k :| k > 0 && Up(links, x, k) == Some(a);
      UpDefined(links, x, 1, k);
      UpCompose(links, x, 1, k - 1);
      assert Up(links, links[x].value, k - 1) == Some(a);
    }
    if x in links && links[x].Some? && AtOrAbove(links, a, links[x].value) {
      var k: nat :| Up(links, links[x].value, k) == Some(a);
      UpCompose(links, x, 1, k);
      assert Up(links, x, 1 + k) == Some(a);
    }
    if AtOrAbove(links, a, x) {
      var k: nat :| Up(links, x, k) == Some(a);
      assert k == 0 || k > 0;
    }
  }

  lemma {:induction false} UpDefined(links: Links, x: nat, i: nat, j: nat)
    requires i <= j && Up(links, x, j).Some?
    ensures Up(links, x, i).Some?
    decreases j - i
  {
    if i < j { UpDefined(links, x, i, j - 1); }
  }

  lemma {:induction false} AboveTransitive(links: Links, a: nat, b: nat, c: nat)
    requires AtOrAbove(links, a, b) && Above(links, b, c)
    ensures Above(links, a, c)
  {
    var i: nat :| Up(links, b, i) == Some(a);
    var j: nat :| j > 0 && Up(links, c, j) == Some(b);
    UpCompose(links, c, j, i);
    assert Up(links, c, j + i) == Some(a);
  }

  /** Of two items above `x`, one is at or above the other. */
  lemma {:induction false} AboveComparable(links: Links, a: nat, b: nat, x: nat)
    requires AtOrAbove(links, a, x) && AtOrAbove(links, b, x)
    ensures AtOrAbove(links, a, b) || AtOrAbove(links, b, a)
  {
    var i: nat :| Up(links, x, i) == Some(a);
    var j: nat :| Up(links, x, j) == Some(b);
    if i <= j {
      UpCompose(links, x, i, j - i);
      assert Up(links, a, j - i) == Some(b);
    } else {
      UpCompose(links, x, j, i - j);
      assert Up(links, b, i - j) == Some(a);
    }
  }

  // -------------------------------------------------------------------- ranks

  /** Every parent ranks below its children. */
  ghost predicate Ranked(links: Links, rank: map<nat, nat>) {
    forall x, p :: x in links && p in links && links[x] == Some(p) ==>
      x in rank && p in rank && rank[p] < rank[x]
  }

  lemma {:induction false} RankFalls(links: Links, rank: map<nat, nat>, x: nat, k: nat)
    requires Ranked(links, rank) && x in links && k > 0
    requires Up(links, x, k).Some? && Up(links, x, k).value in links
    ensures x in rank && Up(links, x, k).value in rank && rank[Up(links, x, k).value] < rank[x]
  {
    if k > 1 { RankFalls(links, rank, x, k - 1); }
  }

  lemma {:induction false} RankedAcyclic(links: Links, rank: map<nat, nat>)
    requires Ranked(links, rank)
    ensures Acyclic(links)
  {
    forall x | x in links ensures !Above(links, x, x) {
      if Above(links, x, x) {
        var k :| k > 0 && Up(links, x, k) == Some(x);
        RankFalls(links, rank, x, k);
      }
    }
  }

  /** The items met on the first `n` steps up from `x`. */
  ghost function Trail(links: Links, x: nat, n: nat): set<nat> {
    if n == 0 then {}
    else Trail(links, x, n - 1) + (var y := Up(links, x, n - 1); if y.Some? then {y.value} else {})
  }

  ghost predicate Met(links: Links, x: nat, n: nat, y: nat) {
    exists i: nat :: i < n && Up(links, x, i) == Some(y)
  }

  lemma {:induction false} TrailMember(links: Links, x: nat, n: nat, y: nat)
    ensures y in Trail(links, x, n) <==> Met(links, x, n, y)
  {
    if n > 0 {
      TrailMember(links, x, n - 1, y);
    }
  }

  /** Whoever is met twice on the way up is above themselves. */
  lemma {:induction false} MetAgain(links: Links, x: nat, i: nat, j: nat, y: nat)
    requires i < j && Up(links, x, i) == Some(y) && Up(links, x, j) == Some(y)
    ensures Above(links, y, y)
  {
    UpCompose(links, x, i, j - i);
  }

  lemma {:induction false} TrailSize(links: Links, x: nat, n: nat)
    requires Acyclic(links)
    requires forall i: nat :: i < n ==> Up(links, x, i).Some? && Up(links, x, i).value in links
    ensures |Trail(links, x, n)| == n && Trail(links, x, n) <= links.Keys
  {
    if n > 0 {
      TrailSize(links, x, n - 1);
      var y := Up(links, x, n - 1).value;
      if y in Trail(links, x, n - 1) {
        TrailMember(links, x, n - 1, y);
        var i: nat :| i < n - 1 && Up(links, x, i) == Some(y);
        MetAgain(links, x, i, n - 1, y);
      }
    }
  }

  lemma {:induction false} LeavesLinks(links: Links, x: nat)
    requires Acyclic(links)
    ensures exists n: nat :: n <= |links| && !(Up(links, x, n).Some? && Up(links, x, n).value in links)
  {
    if forall n: nat :: n <= |links| ==> Up(links, x, n).Some? && Up(links, x, n).value in links {
      TrailSize(links, x, |links| + 1);
      SubsetSize(Trail(links, x, |links| + 1), links.Keys);
    }
  }

  /** How many steps up from `x` stay among the items. */
  ghost function Depth(links: Links, x: nat, limit: nat): nat
    decreases limit
  {
    if x !in links || links[x].None? || links[x].value !in links || limit == 0 then 0
    else 1 + Depth(links, links[x].value, limit - 1)
  }

  lemma {:induction false} DepthStable(links: Links, x: nat, n: nat, limit: nat)
    requires !(Up(links, x, n).Some? && Up(links, x, n).value in links)
    requires n <= limit
    ensures Depth(links, x, limit) == Depth(links, x, n)
    decreases n
  {
    if x in links && links[x].Some? && links[x].value in links {
      assert Up(links, x, 0) == Some(x) && Up(links, x, 1) == links[x];
      UpCompose(links, x, 1, n - 1);
      DepthStable(links, links[x].value, n - 1, limit - 1);
    }
  }

  /** Having no cycle and having a ranking are the same. */
  lemma {:induction false} AcyclicRanked(links: Links) returns (rank: map<nat, nat>)
    requires Acyclic(links)
    ensures Ranked(links, rank) && rank.Keys == links.Keys
  {
    rank := map x | x in links :: Level(links, x);
    forall x, p | x in links && p in links && links[x] == Some(p) ensures rank[p] < rank[x] {
      LevelStep(links, x);
    }
  }

  /** The number of items above `x`. */
  ghost function Level(links: Links, x: nat): nat {
    Depth(links, x, |links| + 1)
  }

  lemma {:induction false} LevelStep(links: Links, x: nat)
    requires Acyclic(links) && x in links
    ensures if links[x].Some? && links[x].value in links then Level(links, x) == Level(links, links[x].value) + 1
            else Level(links, x) == 0
  {
    if links[x].Some? && links[x].value in links {
      var p := links[x].value;
      LeavesLinks(links, p);
      var n: nat :| n <= |links| && !(Up(links, p, n).Some? && Up(links, p, n).value in links);
      DepthStable(links, p, n, |links|);
      DepthStable(links, p, n, |links| + 1);
    }
  }

  // ------------------------------------------------------------- edits of links

  /** Moving `n` under `p` keeps the links acyclic exactly when `n` is not at or above `p`. */
  lemma {:induction false} MoveKeepsAcyclic(links: Links, n: nat, p: nat)
    requires Acyclic(links) && n in links
    ensures Acyclic(links[n := Some(p)]) <==> !AtOrAbove(links, n, p)
  {
    var moved := links[n := Some(p)];
    if AtOrAbove(links, n, p) {
      var k := FirstHit(links, n, p);
      UpUnmoved(links, n, p, p, k);
      assert Up(moved, n, 0) == Some(n) && Up(moved, n, 1) == Some(p);
      UpCompose(moved, n, 1, k);
      assert Above(moved, n, n);
    } else {
      MovedRanked(links, n, p);
    }
  }

  lemma {:induction false} MovedRanked(links: Links, n: nat, p: nat)
    requires Acyclic(links) && n in links && !AtOrAbove(links, n, p)
    ensures Acyclic(links[n := Some(p)])
  {
    var moved := links[n := Some(p)];
    var rank := AcyclicRanked(links);
    var lift := if p in rank then rank[p] + 1 else 1;
    var rank' := map x | x in links :: if AtOrAbove(links, n, x) then rank[x] + lift else rank[x];
    AboveStep(links, n, n);
    forall x | x in moved && moved[x].Some? && moved[x].value in moved
      ensures rank'[moved[x].value] < rank'[x]
    {
      AboveStep(links, n, x);
    }
    RankedAcyclic(moved, rank');
  }

  lemma {:induction false} FirstHit(links: Links, a: nat, x: nat) returns (i: nat)
    requires AtOrAbove(links, a, x)
    ensures Up(links, x, i) == Some(a)
    ensures forall j: nat :: j < i ==> Up(links, x, j) != Some(a)
  {
    var k: nat :| Up(links, x, k) == Some(a);
    i := 0;
    while Up(links, x, i) != Some(a)
      invariant i <= k && forall j: nat :: j < i ==> Up(links, x, j) != Some(a)
      decreases k - i
    {
      i := i + 1;
    }
  }

  lemma {:induction false} UpUnmoved(links: Links, n: nat, p: nat, x: nat, k: nat)
    requires forall j: nat :: j < k ==> Up(links, x, j) != Some(n)
    ensures Up(links[n := Some(p)], x, k) == Up(links, x, k)
  {
    if k > 0 { UpUnmoved(links, n, p, x, k - 1); }
  }

  /** Adding an item that nothing points to. */
  lemma {:induction false} AddKeepsAcyclic(links: Links, n: nat, parent: Option<nat>)
    requires Acyclic(links) && n !in links && parent != Some(n)
    requires forall x :: x in links ==> links[x] != Some(n)
    ensures Acyclic(links[n := parent])
  {
    var rank := AcyclicRanked(links);
    var top := if parent.Some? && parent.value in rank then rank[parent.value] + 1 else 0;
    RankedAcyclic(links[n := parent], rank[n := top]);
  }

  /** Removing an item and hanging its children on an item above it. */
  ghost function Spliced(links: Links, n: nat, fallback: Option<nat>): Links {
    map x | x in links && x != n :: if links[x] == Some(n) then fallback else links[x]
  }

  lemma {:induction false} SpliceKeepsAcyclic(links: Links, n: nat, fallback: Option<nat>)
    requires Acyclic(links) && n in links
    requires fallback == links[n] || (fallback.Some? && fallback.value in links && links[fallback.value].None?)
    ensures Acyclic(Spliced(links, n, fallback))
  {
    var rank := AcyclicRanked(links);
    if fallback == links[n] {
      RankedAcyclic(Spliced(links, n, fallback), rank);
    } else {
      var rank' := map x | x in links :: if x == fallback.value then 0 else rank[x] + 1;
      RankedAcyclic(Spliced(links, n, fallback), rank');
    }
  }

  /** Who is above whom once `n` is spliced out: as before, and a fallback root is above whatever was below `n`. */
  lemma {:induction false} SpliceKeepsLines(links: Links, n: nat, fallback: Option<nat>, a: nat, x: nat)
    requires Acyclic(links) && n in links && a != n && x in links && x != n
    requires fallback == links[n]
        || (links[n].None? && fallback.Some? && fallback.value in links && links[fallback.value].None?)
    ensures Above(Spliced(links, n, fallback), a, x) <==>
              Above(links, a, x) || (fallback == Some(a) && Above(links, n, x))
  {
    var rank := AcyclicRanked(links);
    AboveStep(links, n, n);
    SpliceLine(links, rank, n, fallback, a, x);
  }

  lemma {:induction false} SpliceLine(links: Links, rank: map<nat, nat>, n: nat, fallback: Option<nat>, a: nat, x: nat)
    requires Ranked(links, rank) && rank.Keys == links.Keys && n in links && a != n && x in links && x != n
    requires fallback == links[n]
        || (links[n].None? && fallback.Some? && fallback.value in links && links[fallback.value].None?)
    ensures Above(Spliced(links, n, fallback), a, x) <==>
              Above(links, a, x) || (fallback == Some(a) && Above(links, n, x))
    decreases rank[x]
  {
    var after := Spliced(links, n, fallback);
    hide Above, AtOrAbove, Up;
    AboveStep(links, a, x);
    AboveStep(links, n, x);
    AboveStep(after, a, x);
    if links[x].Some? {
      var p := links[x].value;
      AboveStep(links, a, p);
      AboveStep(links, n, p);
      if p == n {
        if fallback.Some? {
          AboveStep(links, a, fallback.value);
          AboveStep(links, n, fallback.value);
          AboveStep(after, a, fallback.value);
          if fallback == links[n] && fallback.value in links {
            SpliceLine(links, rank, n, fallback, a, fallback.value);
          }
        }
      } else {
        AboveStep(after, a, p);
        if p in links { SpliceLine(links, rank, n, fallback, a, p); }
      }
    }
  }

  // ----------------------------------------------------------- walking up once

  /** From everywhere in `seen` the next step up stays in `seen` or is `cur`. */
  ghost predicate Trodden(links: Links, seen: set<nat>, cur: Option<nat>) {
    && seen <= links.Keys
    && (forall y, p :: y in seen && links[y] == Some(p) ==> p in seen || cur == Some(p))
    && (forall y :: y in seen && links[y].None? ==> cur.None?)
  }

  /** A walk that stopped never leaves what it has seen, except to the place where it stopped. */
  lemma {:induction false} TrailStays(links: Links, x: nat, seen: set<nat>, cur: Option<nat>, m: nat)
    requires (seen == {} ==> cur == Some(x)) && (seen != {} ==> x in seen)
    requires Trodden(links, seen, cur)
    requires cur.None? || cur.value in seen || cur.value !in links
    ensures Up(links, x, m).Some? ==> Up(links, x, m).value in seen || Up(links, x, m) == cur
  {
    if m > 0 { TrailStays(links, x, seen, cur, m - 1); }
  }

  // -------------------------------------------------------------- walking down

  ghost predicate ClosedBelow(links: Links, start: nat, found: set<nat>) {
    forall x, p :: x in links && links[x] == Some(p) && (p == start || p in found) ==> x in found
  }

  lemma {:induction false} ClosedHoldsAll(links: Links, start: nat, found: set<nat>, x: nat, k: nat)
    requires ClosedBelow(links, start, found)
    requires k > 0 && Up(links, x, k) == Some(start)
    ensures x in found
    decreases k
  {
    UpDefined(links, x, 1, k);
    assert Up(links, x, 0) == Some(x) && Up(links, x, 1) == links[x];
    if k > 1 {
      UpCompose(links, x, 1, k - 1);
      ClosedHoldsAll(links, start, found, links[x].value, k - 1);
    }
  }
}
