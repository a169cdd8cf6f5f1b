/**
  How numbers are read and written: the place value of a string of digits, the decimal notation
  of a number, which raw quantities stand for which published ones, and which titles rows of one
  label are given.
*/
module Quantities {
  import opened Wrappers
  import opened Parts

  function Power(k: nat): (p: nat)
    ensures p > 0
  {
    if k == 0 then 1 else 10 * Power(k - 1)
  }

  function DigitOf(c: char): nat
    requires '0' <= c <= '9'
  {
    (c - '0') as nat
  }

  /** Each digit counts for its place, from the left. */
  function PlaceValue(s: string): nat
    requires forall i :: 0 <= i < |s| ==> '0' <= s[i] <= '9'
  {
    if s == "" then 0 else DigitOf(s[0]) * Power(|s| - 1) + PlaceValue(s[1..])
  }

  function Zeros(k: nat): (s: string)
    ensures |s| == k && forall i :: 0 <= i < k ==> s[i] == '0'
  {
    if k == 0 then "" else Zeros(k - 1) + "0"
  }

  lemma {:induction false} PlaceValueEnd(s: string, c: char)
    requires (forall i :: 0 <= i < |s| ==> '0' <= s[i] <= '9') && '0' <= c <= '9'
    ensures PlaceValue(s + [c]) == 10 * PlaceValue(s) + DigitOf(c)
  {
    if s == "" {
      assert s + [c] == [c] && [c][1..] == "";
    } else {
      assert (s + [c])[0] == s[0] && (s + [c])[1..] == s[1..] + [c];
      PlaceValueEnd(s[1..], c);
      TenTimes(DigitOf(s[0]), Power(|s| - 1));
    }
  }

  lemma {:induction false} TenTimes(d: nat, p: nat)
    ensures d * (10 * p) == 10 * (d * p)
  {}

  /** Digits are read by their places. */
  lemma {:induction false} ReadsPlaces(s: string)
    requires Digits(s)
    ensures ValueOf(s) == PlaceValue(s)
  {
    var front, last := s[..|s| - 1], s[|s| - 1];
    assert s == front + [last];
    PlaceValueEnd(front, last);
    if front != "" { ReadsPlaces(front); }
  }

  /** A number is written in digits whose places add up to it, with no zero in front. */
  lemma {:induction false} WrittenOut(n: nat)
    ensures Digits(Decimal(n)) && PlaceValue(Decimal(n)) == n
    ensures n > 0 ==> Decimal(n)[0] != '0'
    ensures n == 0 ==> Decimal(n) == "0"
  {
    var digit := [('0' as int + n % 10) as char];
    if n < 10 {
      PlaceValueEnd("", digit[0]);
      assert "" + digit == digit;
    } else {
      WrittenOut(n / 10);
      PlaceValueEnd(Decimal(n / 10), digit[0]);
    }
  }

  /** So different numbers are written differently. */
  lemma {:induction false} DecimalInjective(m: nat, n: nat)
    requires Decimal(m) == Decimal(n)
    ensures m == n
  {
    WrittenOut(m);
    WrittenOut(n);
  }

  lemma {:induction false} LeadingZeros(k: nat, s: string)
    requires Digits(s)
    ensures Digits(Zeros(k) + s) && PlaceValue(Zeros(k) + s) == PlaceValue(s)
  {
    if k == 0 {
      assert Zeros(0) + s == s;
    } else {
      assert (Zeros(k) + s)[0] == '0' && (Zeros(k) + s)[1..] == Zeros(k - 1) + s by {
        assert Zeros(k)[1..] == Zeros(k - 1);
      }
      LeadingZeros(k - 1, s);
    }
  }

  lemma {:induction false} NextDigit(n: nat, c: char)
    requires '0' <= c <= '9' && n > 0
    ensures Decimal(10 * n + DigitOf(c)) == Decimal(n) + [c]
  {
    var m := 10 * n + DigitOf(c);
    assert m / 10 == n && m % 10 == DigitOf(c);
  }

  lemma {:induction false} OneDigit(c: char)
    requires '0' <= c <= '9'
    ensures Decimal(DigitOf(c)) == [c] && PlaceValue("") == 0
  {}

  lemma {:induction false} ZerosOnly(k: nat)
    ensures Zeros(k) + Decimal(0) == Zeros(k + 1)
  {}

  lemma {:induction false} OneMore(front: string, last: char, j: nat, v: nat) returns (k: nat)
    requires '0' <= last <= '9' && front == Zeros(j) + Decimal(v)
    ensures front + [last] == Zeros(k) + Decimal(10 * v + DigitOf(last))
  {
    OneDigit(last);
    if v == 0 {
      ZerosOnly(j);
      k := j + 1;
    } else {
      NextDigit(v, last);
      hide *;
      k := j;
      assert (Zeros(j) + Decimal(v)) + [last] == Zeros(j) + (Decimal(v) + [last]);
    }
  }

  lemma {:induction false} DigitsSplit(s: string)
    requires Digits(s)
    ensures var front, last := s[..|s| - 1], s[|s| - 1];
            && s == front + [last] && '0' <= last <= '9' && (front != "" ==> Digits(front))
            && forall i :: 0 <= i < |front| ==> '0' <= front[i] <= '9'
  {}

  /** Every string of digits is a number in decimal behind some zeros. */
  lemma {:induction false} DigitsAre(s: string) returns (k: nat)
    requires Digits(s)
    ensures s == Zeros(k) + Decimal(PlaceValue(s))
    decreases |s|
  {
    DigitsSplit(s);
    var front, last := s[..|s| - 1], s[|s| - 1];
    PlaceValueEnd(front, last);
    if front == "" {
      k := 0;
      OneDigit(last);
      assert Zeros(0) + Decimal(DigitOf(last)) == [last];
    } else {
      hide *;
      var j := DigitsAre(front);
      k := OneMore(front, last, j, PlaceValue(front));
    }
  }

  // ---------------------------------------------------------------- quantities

  /** `n` behind any number of zeros. */
  ghost predicate Plain(raw: string, n: nat) {
    exists k: nat :: raw == Zeros(k) + Decimal(n)
  }

  /** An X and `n` in at most three digits. */
  ghost predicate Marked(raw: string, n: nat) {
    && raw != "" && raw[0] in {'X', 'x'} && |raw| <= 4 && Plain(raw[1..], n)
  }

  lemma {:induction false} PlainReads(raw: string, n: nat)
    ensures Plain(raw, n) <==> Digits(raw) && ValueOf(raw) == n
  {
    if Plain(raw, n) {
      var k: nat :| raw == Zeros(k) + Decimal(n);
      WrittenOut(n);
      LeadingZeros(k, Decimal(n));
      ReadsPlaces(raw);
    }
    if Digits(raw) {
      ReadsPlaces(raw);
      var k := DigitsAre(raw);
    }
  }

  lemma {:induction false} CountReads(raw: string, n: nat)
    ensures QuantityOf(raw) == Some(Count(n)) <==> n < 1000 && (Plain(raw, n) || Marked(raw, n))
  {
    PlainReads(raw, n);
    if raw != "" { PlainReads(raw[1..], n); }
    hide Plain, ValueOf;
    assert raw != "" && raw[0] in {'X', 'x'} ==> !Digits(raw);
  }

  /**
    Which raw quantity is published as what: a number below a thousand exactly when it is that
    number in decimal, with any zeros in front, or an X and that number in up to three digits; as
    required exactly when it is a lone X; and nothing else is a quantity.
  */
  lemma {:induction false} QuantityExact(raw: string)
    ensures forall n: nat :: QuantityOf(raw) == Some(Count(n)) <==> n < 1000 && (Plain(raw, n) || Marked(raw, n))
    ensures QuantityOf(raw) == Some(AsRequired) <==> raw in {"X", "x"}
    ensures QuantityOf(raw).None?
         <==> raw !in {"X", "x"} && forall n: nat :: n < 1000 ==> !Plain(raw, n) && !Marked(raw, n)
  {
    forall n: nat ensures QuantityOf(raw) == Some(Count(n)) <==> n < 1000 && (Plain(raw, n) || Marked(raw, n)) {
      CountReads(raw, n);
    }
    assert QuantityOf(raw) == Some(AsRequired) <==> raw in {"X", "x"} by { LoneX(raw); }
    hide QuantityOf, Plain, Marked;
    match QuantityOf(raw) {
      case None =>
      case Some(Count(n)) => assert QuantityOf(raw) == Some(Count(n));
      case Some(AsRequired) =>
    }
  }

  lemma {:induction false} LoneX(raw: string)
    ensures QuantityOf(raw) == Some(AsRequired) <==> raw in {"X", "x"}
  {
    hide ValueOf;
    if raw != "" && |raw| == 1 { assert raw == [raw[0]]; }
  }

  /** The usual notations. */
  lemma {:induction false} QuantityReads(n: nat, k: nat)
    requires n < 1000
    ensures QuantityOf(Zeros(k) + Decimal(n)) == QuantityOf(Decimal(n)) == Some(Count(n))
    ensures QuantityOf("X" + Decimal(n)) == QuantityOf("x" + Decimal(n)) == Some(Count(n))
    ensures QuantityOf("X") == QuantityOf("x") == Some(AsRequired)
  {
    hide QuantityOf, Decimal;
    assert Zeros(0) + Decimal(n) == Decimal(n);
    assert Plain(Decimal(n), n) && Plain(Zeros(k) + Decimal(n), n);
    ThreeDigits(n);
    assert ("X" + Decimal(n))[1..] == Decimal(n) == ("x" + Decimal(n))[1..];
    assert Marked("X" + Decimal(n), n) && Marked("x" + Decimal(n), n);
    QuantityExact(Decimal(n));
    QuantityExact(Zeros(k) + Decimal(n));
    QuantityExact("X" + Decimal(n));
    QuantityExact("x" + Decimal(n));
    QuantityExact("X");
    QuantityExact("x");
  }

  lemma {:induction false} ThreeDigits(n: nat)
    requires n < 1000
    ensures |Decimal(n)| <= 3
  {
    if n >= 100 { assert |Decimal(n / 10 / 10)| == 1 && |Decimal(n / 10)| == 2; }
    if 10 <= n < 100 { assert |Decimal(n / 10)| == 1; }
  }

  // -------------------------------------------------------------------- titles

  /** The group id that tells a row apart from its namesakes, if it has one. */
  function ShownGid(row: TreeRow): Option<nat> {
    if row.gid.Some? && row.gid.value != 0 then row.gid else None
  }

  /**
    Kept siblings of one label are shown under one title exactly when they have one group id; a
    row without such a sibling keeps its label.
  */
  lemma {:induction false} NamesakesApart(fr: Frame, keep: set<nat>, t: nat, u: nat)
    requires t in keep && u in keep && t in fr.tree && u in fr.tree && t != u
    requires fr.tree[t].parent == fr.tree[u].parent && fr.tree[t].title == fr.tree[u].title
    ensures TitleOf(fr, keep, t) == TitleOf(fr, keep, u) <==>
            ShownGid(fr.tree[t]).Some? && ShownGid(fr.tree[t]) == ShownGid(fr.tree[u])
  {
    assert SharesTitle(fr, keep, t) && SharesTitle(fr, keep, u);
    hide Decimal, SharesTitle;
    var name, x, y := fr.tree[t].title, Suffix(fr.tree[t], t), Suffix(fr.tree[u], u);
    assert TitleOf(fr, keep, t) == name + x && TitleOf(fr, keep, u) == name + y by {
      SuffixAssociates(name, fr.tree[t], t);
      SuffixAssociates(name, fr.tree[u], u);
    }
    assert (name + x)[|name|..] == x && (name + y)[|name|..] == y;
    SuffixesDiffer(fr.tree[t], t, fr.tree[u], u);
  }

  function Suffix(row: TreeRow, t: nat): string {
    if ShownGid(row).Some? then " (" + Decimal(ShownGid(row).value) + ")" else " #" + Decimal(t)
  }

  lemma {:induction false} SuffixAssociates(name: string, row: TreeRow, t: nat)
    ensures name + Suffix(row, t)
         == if ShownGid(row).Some? then name + " (" + Decimal(row.gid.value) + ")" else name + " #" + Decimal(t)
  {
    hide Decimal;
  }

  lemma {:induction false} SuffixesDiffer(a: TreeRow, t: nat, b: TreeRow, u: nat)
    requires t != u
    ensures Suffix(a, t) == Suffix(b, u) <==> ShownGid(a).Some? && ShownGid(a) == ShownGid(b)
  {
    hide Decimal;
    if Suffix(a, t) == Suffix(b, u) {
      assert Suffix(a, t)[1] == Suffix(b, u)[1];
      if ShownGid(a).Some? {
        var m, n := ShownGid(a).value, ShownGid(b).value;
        assert Suffix(a, t)[2..|Suffix(a, t)| - 1] == Decimal(m) && Suffix(b, u)[2..|Suffix(b, u)| - 1] == Decimal(n);
        DecimalInjective(m, n);
      } else {
        assert Suffix(a, t)[2..] == Decimal(t) && Suffix(b, u)[2..] == Decimal(u);
        DecimalInjective(t, u);
      }
    }
  }

  ghost predicate WrittenAs(d: string, n: nat) {
    Digits(d) && PlaceValue(d) == n && (d[0] == '0' ==> d == "0")
  }

  ghost predicate HasNamesake(fr: Frame, keep: set<nat>, t: nat)
    requires t in fr.tree
  {
    exists u :: u in keep && u in fr.tree && u != t && fr.tree[u].parent == fr.tree[t].parent
      && fr.tree[u].title == fr.tree[t].title
  }

  /**
    A row with a kept namesake is shown with its group id in brackets or else with its own id, any
    other by its label.
  */
  lemma {:induction false} TitleForm(fr: Frame, keep: set<nat>, t: nat)
    requires t in fr.tree
    ensures var row, shown := fr.tree[t], TitleOf(fr, keep, t);
            if !HasNamesake(fr, keep, t) then shown == row.title
            else if ShownGid(row).Some? then
              exists d :: WrittenAs(d, ShownGid(row).value) && shown == row.title + " (" + d + ")"
            else exists d :: WrittenAs(d, t) && shown == row.title + " #" + d
  {
    WrittenOut(t);
    assert WrittenAs(Decimal(t), t);
    if ShownGid(fr.tree[t]).Some? {
      var gid := ShownGid(fr.tree[t]).value;
      WrittenOut(gid);
      assert WrittenAs(Decimal(gid), gid);
    }
    hide Decimal, WrittenAs;
    assert SharesTitle(fr, keep, t) <==> HasNamesake(fr, keep, t);
  }
}
