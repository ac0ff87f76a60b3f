/**
 The e-mail shape check of the form handler: `re.match(r"[^@]+@[^@]+\.[^@]+", email)`.
 `re.match` anchors the pattern at the start of the string only, so any text
 may follow the matched prefix. The pattern is stated directly as a
 decomposition of the string (`Shape`) and decided without a regular
 expression engine (`Matches`); the two are proved to agree.
 */
module Email {
  import opened Strings

  /** What `[^@]+` matches: a non-empty run of characters other than '@'. */
  predicate IsRun(s: string) {
    s != [] && '@' !in s
  }

  function Compose(a: string, b: string, c: string, rest: string): string {
    a + "@" + b + "." + c + rest
  }

  /** The pattern matches a prefix of `s`: `s` is `a@b.c` followed by anything,
      where `a`, `b` and `c` are non-empty and free of '@'. */
  ghost predicate Shape(s: string) {
    exists a, b, c, rest :: IsRun(a) && IsRun(b) && IsRun(c) && s == Compose(a, b, c, rest)
  }

  /** The longest prefix of `s` without '@'. */
  function RunOf(s: string): (r: string)
    ensures |r| <= |s| && r == s[..|r|] && '@' !in r
    ensures |r| == |s| || s[|r|] == '@'
  {
    if '@' in s then s[..IndexOf(s, '@')] else s
  }

  /** `r` has a '.' with at least one character on each side. */
  predicate HasInnerDot(r: string) {
    exists i :: 1 <= i <= |r| - 2 && r[i] == '.'
  }

  /** The decision procedure: the first '@' is not at the start, and the
      '@'-free run right after it has an inner '.'. */
  predicate AtThenDot(s: string) {
    '@' in s && IndexOf(s, '@') >= 1 && HasInnerDot(RunOf(s[IndexOf(s, '@') + 1..]))
  }

  /** Any decomposition `a@b.c…` puts the first '@' at `|a|` and an inner
      '.' at `|b|` in the run after it. */
  lemma ShapeGivesAtThenDot(s: string, a: string, b: string, c: string, rest: string)
    requires IsRun(a) && IsRun(b) && IsRun(c) && s == Compose(a, b, c, rest)
    ensures AtThenDot(s)
  {
    assert s[|a|] == '@';
    assert forall j :: 0 <= j < |a| ==> s[j] == a[j];
    var k := IndexOf(s, '@');
    assert k == |a|;
    var t := s[k + 1..];
    var m := b + "." + c;
    assert t == m + rest;
    assert forall j :: 0 <= j < |m| ==> t[j] == m[j];
    assert '@' !in m by {
      assert forall j :: 0 <= j < |m| ==> m[j] != '@' by {
        forall j | 0 <= j < |m| ensures m[j] != '@' {
          if j < |b| { assert m[j] == b[j]; }
          else if j > |b| { assert m[j] == c[j - |b| - 1]; }
        }
      }
    }
    var r := RunOf(t);
    assert |r| >= |m|;
    assert r[|b|] == t[|b|] == m[|b|] == '.';
  }

  /** Conversely the procedure's witnesses give a decomposition. */
  lemma AtThenDotGivesShape(s: string)
    requires AtThenDot(s)
    ensures Shape(s)
  {
    var k := IndexOf(s, '@');
    CutAtFirst(s, '@');
    var t := s[k + 1..];
    var r := RunOf(t);
    var i :| 1 <= i <= |r| - 2 && r[i] == '.';
    Witness(s, k, t, r, i);
  }

  /** The decomposition read off the first '@' at `k`, the run `r` after it
      and the inner '.' at `i`. */
  lemma Witness(s: string, k: nat, t: string, r: string, i: nat)
    requires 1 <= k < |s| && s == s[..k] + "@" + t && '@' !in s[..k]
    requires |r| <= |t| && r == t[..|r|] && '@' !in r
    requires 1 <= i <= |r| - 2 && r[i] == '.'
    ensures Shape(s)
  {
    var a, b, c, rest := s[..k], r[..i], r[i + 1..], t[|r|..];
    SliceFree(r, 0, i, '@');
    SliceFree(r, i + 1, |r|, '@');
    assert s == Compose(a, b, c, rest) by {
      assert r == b + "." + c;
      assert t == r + rest;
      assert s == a + "@" + t;
    }
    ShapeIntro(s, a, b, c, rest);
  }

  lemma ShapeIntro(s: string, a: string, b: string, c: string, rest: string)
    requires IsRun(a) && IsRun(b) && IsRun(c) && s == Compose(a, b, c, rest)
    ensures Shape(s)
  {
  }

  /** A slice of a string without `c` has no `c` either. */
  lemma SliceFree(s: string, lo: nat, hi: nat, c: char)
    requires lo <= hi <= |s| && c !in s
    ensures c !in s[lo..hi]
  {
    assert forall j :: 0 <= j < hi - lo ==> s[lo..hi][j] == s[lo + j];
  }

  /** The pattern matches exactly when the first '@' is at an index k >= 1 and
      the '@'-free run after it has a '.' at an index i with 1 <= i <= |run| - 2. */
  lemma ShapeIffAtThenDot(s: string)
    ensures Shape(s) <==> AtThenDot(s)
  {
    if Shape(s) {
      var a, b, c, rest :| IsRun(a) && IsRun(b) && IsRun(c) && s == Compose(a, b, c, rest);
      ShapeGivesAtThenDot(s, a, b, c, rest);
    }
    if AtThenDot(s) {
      AtThenDotGivesShape(s);
    }
  }

  /** Whether `re.match(r"[^@]+@[^@]+\.[^@]+", s)` finds a match. */
  function Matches(s: string): (b: bool)
    ensures b <==> Shape(s)
  {
    ShapeIffAtThenDot(s);
    AtThenDot(s)
  }

  /** Text after the match, a second '@' after the dot and several dots are
      all accepted. */
  lemma AcceptedExamples()
    ensures Shape("a@b.c@x") && Shape("a@b.c.d") && Shape("me@x.org ")
  {
    ShapeIntro("a@b.c@x", "a", "b", "c", "@x");
    ShapeIntro("a@b.c.d", "a", "b", "c.d", "");
    ShapeIntro("me@x.org ", "me", "x", "org", " ");
  }

  /** An empty part before '@', before the dot or after the dot is refused,
      and so is a missing dot. */
  lemma RefusedExamples()
    ensures !Matches("@b.c") && !Matches("a@b") && !Matches("a@.c") && !Matches("a@b.")
  {
    assert IndexOf("@b.c", '@') == 0;
    assert IndexOf("a@b", '@') == 1 && "a@b"[2..] == "b";
    assert IndexOf("a@.c", '@') == 1 && "a@.c"[2..] == ".c";
    assert IndexOf("a@b.", '@') == 1 && "a@b."[2..] == "b.";
  }
}
