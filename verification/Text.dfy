/** String handling shared by the crawl: logical paths and the order of SQLite's BINARY collation. */
module Text {
  import opened Wrappers

  const SLASH := '/'
  const ESCAPED_SLASH: char := '\U{2044}'

  function Replace(s: string, from: char, to: char): string {
    if s == "" then "" else [if s[0] == from then to else s[0]] + Replace(s[1..], from, to)
  }

  function Escape(text: string): string {
    Replace(text, SLASH, ESCAPED_SLASH)
  }

  function CollapseSlashes(s: string): string {
    if |s| <= 1 then s
    else if s[0] == SLASH && s[1] == SLASH then CollapseSlashes(s[1..])
    else [s[0]] + CollapseSlashes(s[1..])
  }

  function StripLeft(s: string): string {
    if s != "" && s[0] == SLASH then StripLeft(s[1..]) else s
  }

  function StripRight(s: string): string {
    if s != "" && s[|s| - 1] == SLASH then StripRight(s[..|s| - 1]) else s
  }

  function Norm(path: string): string {
    var p := StripRight(StripLeft(CollapseSlashes(path)));
    if p == "." then "" else p
  }

  function LastSlash(s: string): Option<nat> {
    if s == "" then None
    else if s[|s| - 1] == SLASH then Some(|s| - 1)
    else LastSlash(s[..|s| - 1])
  }

  /** The parent in the logical tree; a path of one segment, or none, has no parent. */
  function ParentPath(path: string): Option<string> {
    match LastSlash(path)
    case None => None
    case Some(k) => if k <= |path| then Some(path[..k]) else None
  }

  function CountSlashes(s: string): nat {
    if s == "" then 0 else (if s[0] == SLASH then 1 else 0) + CountSlashes(s[1..])
  }

  /** The strict order of SQLite's default collation. */
  predicate Before(a: string, b: string) {
    b != "" && (a == "" || a[0] < b[0] || (a[0] == b[0] && Before(a[1..], b[1..])))
  }

  lemma {:induction false} BeforeTransitive(a: string, b: string, c: string)
    requires Before(a, b) && Before(b, c)
    ensures Before(a, c)
  {
    if a != "" && a[0] == b[0] == c[0] {
      BeforeTransitive(a[1..], b[1..], c[1..]);
    }
  }

  lemma {:induction false} BeforeTotal(a: string, b: string)
    ensures !(Before(a, b) && Before(b, a))
    ensures a != b ==> Before(a, b) || Before(b, a)
    ensures a == b ==> !Before(a, b)
  {
    if a != "" && b != "" && a[0] == b[0] {
      BeforeTotal(a[1..], b[1..]);
      assert a == [a[0]] + a[1..] && b == [b[0]] + b[1..];
    }
  }

  lemma {:induction false} FirstExists(s: set<string>)
    requires s != {}
    ensures exists p :: p in s && forall q :: q in s ==> !Before(q, p)
  {
    var x :| x in s;
    if s == {x} {
      BeforeTotal(x, x);
      assert forall q :: q in s ==> !Before(q, x);
    } else {
      var rest := s - {x};
      FirstExists(rest);
      var p :| p in rest && forall q :: q in rest ==> !Before(q, p);
      BeforeTotal(x, p);
      BeforeTotal(x, x);
      if Before(x, p) {
        forall q | q in s ensures !Before(q, x) {
          if q != x && Before(q, x) { BeforeTransitive(q, x, p); }
        }
        assert x in s;
      } else {
        assert p in s && forall q :: q in s ==> !Before(q, p);
      }
    }
  }
}
