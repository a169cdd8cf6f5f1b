/**
  What the string handling of the crawl means: a logical path is a list of segments, its parent is
  all of them but the last, and its depth is their number less one.
*/
module Paths {
  import opened Wrappers
  import opened Text

  /** The non-empty stretches between slashes. */
  ghost function Segments(s: string): (segments: seq<string>)
    ensures s != "" && s[0] != SLASH ==> segments != []
  {
    if s == "" then []
    else if s[0] == SLASH then Segments(s[1..])
    else if |s| == 1 || s[1] == SLASH then [[s[0]]] + Segments(s[1..])
    else
      var rest := Segments(s[1..]);
      [[s[0]] + rest[0]] + rest[1..]
  }

  /** No slash at either end, no two in a row; the path of the top is empty, not a dot. */
  ghost predicate Clean(s: string) {
    && (s != "" ==> s[0] != SLASH && s[|s| - 1] != SLASH) && s != "."
    && forall i :: 0 <= i < |s| - 1 ==> !(s[i] == SLASH && s[i + 1] == SLASH)
  }

  lemma {:induction false} Collapsed(s: string)
    ensures Segments(CollapseSlashes(s)) == Segments(s)
    ensures s != "" ==> CollapseSlashes(s) != "" && CollapseSlashes(s)[0] == s[0]
    ensures var c := CollapseSlashes(s); forall i :: 0 <= i < |c| - 1 ==> !(c[i] == SLASH && c[i + 1] == SLASH)
  {
    if |s| > 1 { Collapsed(s[1..]); }
  }

  lemma {:induction false} StrippedLeft(s: string)
    ensures Segments(StripLeft(s)) == Segments(s)
    ensures StripLeft(s) != "" ==> StripLeft(s)[0] != SLASH
    ensures exists k :: 0 <= k <= |s| && StripLeft(s) == s[k..]
  {
    if s != "" && s[0] == SLASH {
      StrippedLeft(s[1..]);
      var k :| 0 <= k <= |s[1..]| && StripLeft(s[1..]) == s[1..][k..];
      assert s[1..][k..] == s[k + 1..];
    } else {
      assert s == s[0..];
    }
  }

  lemma {:induction false} TrailingSlash(s: string)
    ensures Segments(s + [SLASH]) == Segments(s)
  {
    if s != "" {
      assert (s + [SLASH])[1..] == s[1..] + [SLASH];
      TrailingSlash(s[1..]);
    }
  }

  lemma {:induction false} StrippedRight(s: string)
    ensures Segments(StripRight(s)) == Segments(s)
    ensures StripRight(s) != "" ==> StripRight(s)[|StripRight(s)| - 1] != SLASH
    ensures StripRight(s) <= s
  {
    if s != "" && s[|s| - 1] == SLASH {
      assert s == s[..|s| - 1] + [SLASH];
      TrailingSlash(s[..|s| - 1]);
      StrippedRight(s[..|s| - 1]);
    }
  }

  lemma {:induction false} StripKeepsApart(s: string, left: string, p: string, k: nat)
    requires forall i :: 0 <= i < |s| - 1 ==> !(s[i] == SLASH && s[i + 1] == SLASH)
    requires k <= |s| && left == s[k..] && p <= left
    ensures forall i :: 0 <= i < |p| - 1 ==> !(p[i] == SLASH && p[i + 1] == SLASH)
  {
    forall i | 0 <= i < |p| - 1 ensures !(p[i] == SLASH && p[i + 1] == SLASH) {
      assert p[i] == left[i] == s[k + i] && p[i + 1] == left[i + 1] == s[k + i + 1];
    }
  }

  lemma {:induction false} Stripped(path: string) returns (p: string)
    ensures Norm(path) == if p == "." then "" else p
    ensures Segments(p) == Segments(path) && (p != "" ==> p[0] != SLASH && p[|p| - 1] != SLASH)
    ensures forall i :: 0 <= i < |p| - 1 ==> !(p[i] == SLASH && p[i + 1] == SLASH)
  {
    hide Segments, CollapseSlashes, StripLeft, StripRight;
    var collapsed := CollapseSlashes(path);
    var left := StripLeft(collapsed);
    p := StripRight(left);
    Collapsed(path);
    StrippedLeft(collapsed);
    StrippedRight(left);
    var k: nat :| k <= |collapsed| && left == collapsed[k..];
    StripKeepsApart(collapsed, left, p, k);
  }

  /** Normalising keeps the segments and nothing else; a lone dot stands for the top. */
  lemma {:induction false} NormExact(path: string)
    ensures Clean(Norm(path))
    ensures Segments(Norm(path)) == if Segments(path) == ["."] then [] else Segments(path)
  {
    EmptySegments();
    hide Segments, Norm;
    var p := Stripped(path);
    LoneDot(p);
  }

  lemma {:induction false} EmptySegments()
    ensures Segments("") == []
  {}

  lemma {:induction false} LoneDot(p: string)
    requires p != "" ==> p[0] != SLASH && p[|p| - 1] != SLASH
    ensures Segments(p) == ["."] <==> p == "."
  {
    if |p| == 1 {
      assert Segments(p[1..]) == [];
    } else if |p| > 1 {
      if p[1] == SLASH { SegmentsLast(p[1..]); } else { SegmentsFilled(p[1..]); }
    }
  }

  lemma {:induction false} SegmentsFilled(s: string)
    ensures forall i :: 0 <= i < |Segments(s)| ==> Segments(s)[i] != ""
  {
    if s != "" { SegmentsFilled(s[1..]); }
  }

  lemma {:induction false} SegmentsLast(s: string)
    requires s != "" && s[|s| - 1] != SLASH
    ensures Segments(s) != []
  {
    if |s| > 1 { SegmentsLast(s[1..]); }
  }

  lemma {:induction false} NormKeeps(path: string)
    requires Clean(path)
    ensures Norm(path) == path
  {
    CollapseKeeps(path);
  }

  lemma {:induction false} CollapseKeeps(s: string)
    requires forall i :: 0 <= i < |s| - 1 ==> !(s[i] == SLASH && s[i + 1] == SLASH)
    ensures CollapseSlashes(s) == s
  {
    if |s| > 1 {
      assert s == [s[0]] + s[1..];
      forall i | 0 <= i < |s[1..]| - 1 ensures !(s[1..][i] == SLASH && s[1..][i + 1] == SLASH) {
        assert s[1..][i] == s[i + 1] && s[1..][i + 1] == s[i + 2];
      }
      CollapseKeeps(s[1..]);
    }
  }

  /** The parent is what stands before the last slash. */
  lemma {:induction false} ParentExact(parent: string, name: string)
    requires SLASH !in name
    ensures ParentPath(parent + [SLASH] + name) == Some(parent)
    ensures ParentPath(name) == None
    decreases |name|
  {
    var path := parent + [SLASH] + name;
    LastSlashAt(parent, name);
    assert path[..|parent|] == parent;
  }

  lemma {:induction false} LastSlashAt(parent: string, name: string)
    requires SLASH !in name
    ensures LastSlash(parent + [SLASH] + name) == Some(|parent|) && LastSlash(name) == None
  {
    var path := parent + [SLASH] + name;
    if name != "" {
      assert path[..|path| - 1] == parent + [SLASH] + name[..|name| - 1];
      LastSlashAt(parent, name[..|name| - 1]);
    } else {
      assert path == parent + [SLASH];
    }
  }

  lemma {:induction false} CountAppend(a: string, b: string)
    ensures CountSlashes(a + b) == CountSlashes(a) + CountSlashes(b)
  {
    if a == "" {
      assert a + b == b;
    } else {
      assert (a + b)[1..] == a[1..] + b;
      CountAppend(a[1..], b);
    }
  }

  lemma {:induction false} NoSlashes(s: string)
    requires SLASH !in s
    ensures CountSlashes(s) == 0
  {
    if s != "" { NoSlashes(s[1..]); }
  }

  /** A clean path has one segment more than slashes. */
  lemma {:induction false} DepthIsSegments(s: string)
    requires Clean(s) || s == "." || s == ""
    ensures s != "" ==> |Segments(s)| == CountSlashes(s) + 1
    ensures s == "" ==> Segments(s) == [] && CountSlashes(s) == 0
  {
    if |s| > 1 {
      var rest := if s[1] == SLASH then s[2..] else s[1..];
      var d := |s| - |rest|;
      forall i | 0 <= i < |rest| - 1 ensures !(rest[i] == SLASH && rest[i + 1] == SLASH) {
        assert rest[i] == s[i + d] && rest[i + 1] == s[i + d + 1];
      }
      assert s[1] == SLASH ==> |s| > 2 && s[2] != SLASH && s[1..][1..] == s[2..];
      DepthIsSegments(rest);
    }
  }

  lemma {:induction false} Escaped(text: string)
    ensures |Escape(text)| == |text|
    ensures forall i :: 0 <= i < |text| ==> Escape(text)[i] == if text[i] == SLASH then ESCAPED_SLASH else text[i]
  {
    if text != "" { Escaped(text[1..]); }
  }

  lemma {:induction false} OneSlash()
    ensures CountSlashes("/") == 1
  {
    assert CountSlashes("/"[1..]) == 0;
  }

  /** Where a page without a path of its own is hung: one level under its referrer, whatever slashes its text has. */
  lemma {:induction false} AnchoredPath(parent: string, text: string)
    requires Clean(parent) && parent != "" && text != ""
    ensures var path := Norm(parent + "/" + Escape(text));
            && path == parent + "/" + Escape(text)
            && ParentPath(path) == Some(parent) && CountSlashes(path) == CountSlashes(parent) + 1
  {
    var name := Escape(text);
    var path := parent + "/" + name;
    Escaped(text);
    assert SLASH !in name;
    assert path[|parent|] == SLASH;
    forall i | 0 <= i < |path| - 1 ensures !(path[i] == SLASH && path[i + 1] == SLASH) {
      if i + 1 < |parent| {
        assert path[i] == parent[i] && path[i + 1] == parent[i + 1];
      } else if i < |parent| {
        assert path[i] == parent[|parent| - 1];
      } else {
        assert path[i + 1] == name[i - |parent|];
      }
    }
    assert path[0] == parent[0] && path[|path| - 1] == name[|name| - 1];
    hide *;
    NormKeeps(path);
    ParentExact(parent, name);
    CountAppend(parent + "/", name);
    CountAppend(parent, "/");
    NoSlashes(name);
    OneSlash();
  }

  /** One string comes before another when it is a proper prefix of it, or smaller at the first place they differ. */
  lemma {:induction false} BeforeExact(a: string, b: string)
    ensures Before(a, b) <==>
              a < b || exists k :: 0 <= k < |a| && k < |b| && a[..k] == b[..k] && a[k] < b[k]
  {
    if a != "" && b != "" && a[0] == b[0] {
      var s, t := a[1..], b[1..];
      BeforeExact(s, t);
      assert a == [a[0]] + s && b == [b[0]] + t;
      assert a < b <==> s < t;
      if k :| 0 <= k < |s| && k < |t| && s[..k] == t[..k] && s[k] < t[k] {
        assert a[..k + 1] == [a[0]] + s[..k] && b[..k + 1] == [b[0]] + t[..k] && a[k + 1] < b[k + 1];
      }
      if k :| 0 <= k < |a| && k < |b| && a[..k] == b[..k] && a[k] < b[k] {
        assert k > 0 && s[..k - 1] == a[..k][1..] && t[..k - 1] == b[..k][1..] && s[k - 1] < t[k - 1];
      }
    } else if a != "" && b != "" {
      assert a[..0] == b[..0];
      if k :| 0 <= k < |a| && k < |b| && a[..k] == b[..k] && a[k] < b[k] {
        assert k > 0 ==> a[..k][0] == b[..k][0];
      }
    }
  }
}
