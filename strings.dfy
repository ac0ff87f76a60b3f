/**
 The few Python `str` operations the form handling relies on, over Dafny
 strings (sequences of Unicode scalar values): `isspace`, `strip()`,
 `split(sep)` with a one-character separator, `sep.join(parts)`,
 `replace(old, new)` with a one-character `old`, and `lower()` restricted to
 ASCII letters.
 */
module Strings {

  /** The characters Python's `str.isspace` accepts, which are the ones
      `str.strip()` without arguments removes. */
  predicate IsSpace(c: char) {
    || ('\t' <= c <= '\r')              // \t \n \x0b \x0c \r
    || ('\U{1C}' <= c <= '\U{1F}')      // file, group, record and unit separators
    || c == ' '
    || c == '\U{85}' || c == '\U{A0}' || c == '\U{1680}'
    || ('\U{2000}' <= c <= '\U{200A}')
    || c == '\U{2028}' || c == '\U{2029}' || c == '\U{202F}' || c == '\U{205F}'
    || c == '\U{3000}'
  }

  predicate AllSpace(s: string) {
    forall k :: 0 <= k < |s| ==> IsSpace(s[k])
  }

  /** Every character of `s[lo..hi]` is whitespace. */
  predicate SpaceIn(s: string, lo: int, hi: int) {
    forall k :: lo <= k < hi && 0 <= k < |s| ==> IsSpace(s[k])
  }

  /** Neither begins nor ends with whitespace. */
  predicate IsStripped(s: string) {
    s == [] || (!IsSpace(s[0]) && !IsSpace(s[|s| - 1]))
  }

  /** Number of occurrences of `c` in `s`. */
  function Count(s: string, c: char): (n: nat)
    ensures n <= |s|
    ensures n == 0 <==> c !in s
  {
    if s == [] then 0
    else
      assert s == [s[0]] + s[1..];
      (if s[0] == c then 1 else 0) + Count(s[1..], c)
  }

  /** Occurrences in a concatenation add up. */
  lemma {:induction false} CountAppend(a: string, b: string, c: char)
    ensures Count(a + b, c) == Count(a, c) + Count(b, c)
  {
    if a == [] {
      assert a + b == b;
    } else {
      CountAppend(a[1..], b, c);
      assert (a + b)[0] == a[0] && (a + b)[1..] == a[1..] + b;
    }
  }

  /** The position of the first `c` in `s`. */
  function IndexOf(s: string, c: char): (i: nat)
    requires c in s
    ensures i < |s| && s[i] == c
    ensures forall k :: 0 <= k < i ==> s[k] != c
  {
    if s[0] == c then 0
    else
      assert c in s[1..] by { var k :| 0 <= k < |s| && s[k] == c; assert s[1..][k - 1] == c; }
      1 + IndexOf(s[1..], c)
  }

  // ---------------------------------------------------------------- strip

  /** The end of the run of whitespace that starts at `from`. */
  function SkipSpace(s: string, from: nat): (k: nat)
    requires from <= |s|
    ensures from <= k <= |s| && SpaceIn(s, from, k)
    ensures k == |s| || !IsSpace(s[k])
    decreases |s| - from
  {
    if from == |s| || !IsSpace(s[from]) then from else SkipSpace(s, from + 1)
  }

  /** The start of the run of whitespace that ends at `hi`, looking no
      further back than `lo`. */
  function SkipSpaceBack(s: string, lo: nat, hi: nat): (k: nat)
    requires lo <= hi <= |s|
    ensures lo <= k <= hi && SpaceIn(s, k, hi)
    ensures k == lo || !IsSpace(s[k - 1])
    decreases hi
  {
    if hi == lo || !IsSpace(s[hi - 1]) then hi else SkipSpaceBack(s, lo, hi - 1)
  }

  /** `s.strip()`: the part of `s` between its leading and its trailing
      whitespace. The contract determines the result: it is a slice of `s`,
      everything around it is whitespace, and it neither starts nor ends
      with whitespace. */
  function Strip(s: string): (r: string)
    ensures IsStripped(r)
    ensures exists i :: 0 <= i <= |s| - |r| && r == s[i..i + |r|]
                        && SpaceIn(s, 0, i) && SpaceIn(s, i + |r|, |s|)
  {
    var i := SkipSpace(s, 0);
    var j := SkipSpaceBack(s, i, |s|);
    assert i < j ==> s[i..j][0] == s[i] && s[i..j][j - i - 1] == s[j - 1];
    s[i..j]
  }

  /** A string strips to nothing exactly when it is all whitespace. */
  lemma StripEmptyIff(s: string)
    ensures Strip(s) == [] <==> AllSpace(s)
  {
    var r := Strip(s);
    var i :| 0 <= i <= |s| - |r| && r == s[i..i + |r|]
             && SpaceIn(s, 0, i) && SpaceIn(s, i + |r|, |s|);
    if r != [] {
      assert r[0] == s[i];
    }
  }

  /** Stripping adds no character: a character absent from `s` is absent
      from `Strip(s)`. */
  lemma StripKeepsOut(s: string, c: char)
    requires c !in s
    ensures c !in Strip(s)
  {
    var r := Strip(s);
    var i :| 0 <= i <= |s| - |r| && r == s[i..i + |r|]
             && SpaceIn(s, 0, i) && SpaceIn(s, i + |r|, |s|);
    assert forall k :: 0 <= k < |r| ==> r[k] == s[i + k];
  }

  /** Stripping twice is stripping once. */
  lemma StripIdempotent(s: string)
    ensures Strip(Strip(s)) == Strip(s)
  {
    var r := Strip(s);
    if r != [] {
      assert SkipSpace(r, 0) == 0;
      assert SkipSpaceBack(r, 0, |r|) == |r|;
      assert r[0..|r|] == r;
    }
  }

  // ----------------------------------------------------------------- join

  /** Sum of the lengths of `parts`. */
  function TotalLength(parts: seq<string>): nat {
    if parts == [] then 0 else |parts[0]| + TotalLength(parts[1..])
  }

  /** `sep.join(parts)`: the parts in order, `sep` between neighbours. */
  function Join(parts: seq<string>, sep: string): string {
    if parts == [] then []
    else if |parts| == 1 then parts[0]
    else parts[0] + sep + Join(parts[1..], sep)
  }

  /** Length of a join: the parts' lengths plus one separator between each
      pair of neighbours; the empty list joins to the empty string. */
  lemma {:induction false} JoinLength(parts: seq<string>, sep: string)
    ensures parts == [] ==> Join(parts, sep) == []
    ensures parts != [] ==> |Join(parts, sep)| == TotalLength(parts) + |sep| * (|parts| - 1)
  {
    if |parts| > 1 {
      JoinLength(parts[1..], sep);
      assert |sep| * (|parts| - 1) == |sep| + |sep| * (|parts| - 2);
    }
  }

  /** A join cut at any part boundary: the joins of both sides with one
      separator between them. Together with `Join([p], sep) == p` this says
      the parts appear in order with exactly one `sep` between neighbours. */
  lemma {:induction false} JoinAt(parts: seq<string>, sep: string, i: nat)
    requires 0 < i < |parts|
    ensures Join(parts, sep) == Join(parts[..i], sep) + sep + Join(parts[i..], sep)
  {
    if i == 1 {
      assert parts[..1] == [parts[0]];
      assert parts[1..] == parts[i..];
    } else {
      JoinAt(parts[1..], sep, i - 1);
      assert parts[1..][..i - 1] == parts[..i][1..];
      assert parts[1..][i - 1..] == parts[i..];
      assert Join(parts[..i], sep) == parts[0] + sep + Join(parts[..i][1..], sep);
    }
  }

  // ---------------------------------------------------------------- split

  /** `s.split(sep)` for a one-character separator: the text before the
      first `sep`, then the split of the text after it; a string without
      `sep` is one piece (so the empty string splits into `[""]`). */
  function Split(s: string, sep: char): (r: seq<string>)
    ensures r != []
    decreases |s|
  {
    if sep !in s then [s]
    else
      var i := IndexOf(s, sep);
      [s[..i]] + Split(s[i + 1..], sep)
  }

  /** A string cut around its first `sep`. */
  lemma CutAtFirst(s: string, sep: char)
    requires sep in s
    ensures s == s[..IndexOf(s, sep)] + [sep] + s[IndexOf(s, sep) + 1..]
    ensures sep !in s[..IndexOf(s, sep)]
  {
  }

  /** One piece more than there are separators. */
  lemma {:induction false} SplitCount(s: string, sep: char)
    ensures |Split(s, sep)| == Count(s, sep) + 1
    decreases |s|
  {
    if sep in s {
      var i := IndexOf(s, sep);
      CutAtFirst(s, sep);
      SplitCount(s[i + 1..], sep);
      CountAppend(s[..i] + [sep], s[i + 1..], sep);
      CountAppend(s[..i], [sep], sep);
    }
  }

  /** No piece of a split contains the separator. */
  lemma {:induction false} SplitPiecesFree(s: string, sep: char)
    ensures forall k :: 0 <= k < |Split(s, sep)| ==> sep !in Split(s, sep)[k]
    decreases |s|
  {
    if sep in s {
      var i := IndexOf(s, sep);
      CutAtFirst(s, sep);
      SplitPiecesFree(s[i + 1..], sep);
    }
  }

  /** The first piece ends at the first separator. */
  lemma SplitAtSep(a: string, t: string, sep: char)
    requires sep !in a
    ensures Split(a + [sep] + t, sep) == [a] + Split(t, sep)
  {
    var x := a + [sep] + t;
    assert x[|a|] == sep;
    var i := IndexOf(x, sep);
    assert forall k :: 0 <= k < |a| ==> x[k] == a[k];
    assert i == |a|;
    assert x[..i] == a && x[i + 1..] == t;
  }

  /** Joining separator-free parts and splitting again gives the parts back. */
  lemma {:induction false} JoinThenSplit(parts: seq<string>, sep: char)
    requires parts != []
    requires forall k :: 0 <= k < |parts| ==> sep !in parts[k]
    ensures Split(Join(parts, [sep]), sep) == parts
  {
    if |parts| > 1 {
      JoinThenSplit(parts[1..], sep);
      SplitAtSep(parts[0], Join(parts[1..], [sep]), sep);
      assert [parts[0]] + parts[1..] == parts;
    }
  }

  // -------------------------------------------------------------- replace

  /** `s.replace(c, with)` for a one-character pattern: the text before the
      first `c`, then `with`, then the replacement in the text after it. */
  function ReplaceChar(s: string, c: char, with: string): (r: string)
    decreases |s|
  {
    if c !in s then s
    else
      var i := IndexOf(s, c);
      s[..i] + with + ReplaceChar(s[i + 1..], c, with)
  }

  /** No `c` is left, unless `with` brings one back. */
  lemma {:induction false} ReplaceRemoves(s: string, c: char, with: string)
    requires c !in with
    ensures c !in ReplaceChar(s, c, with)
    decreases |s|
  {
    if c in s {
      var i := IndexOf(s, c);
      CutAtFirst(s, c);
      ReplaceRemoves(s[i + 1..], c, with);
    }
  }

  lemma MulSucc(m: int, n: int, w: int)
    requires m == n + 1
    ensures m * w == n * w + w
  {
  }

  /** Each `c` grows from one character to `|with|` characters. */
  lemma {:induction false} ReplaceLength(s: string, c: char, with: string)
    ensures |ReplaceChar(s, c, with)| == |s| + Count(s, c) * (|with| - 1)
    decreases |s|
  {
    if c in s {
      var i := IndexOf(s, c);
      var a, t := s[..i], s[i + 1..];
      CutAtFirst(s, c);
      ReplaceLength(t, c, with);
      CountAppend(a + [c], t, c);
      CountAppend(a, [c], c);
      assert Count(s, c) == Count(t, c) + 1;
      MulSucc(Count(s, c), Count(t, c), |with| - 1);
      assert |ReplaceChar(s, c, with)| == |a| + |with| + |ReplaceChar(t, c, with)|;
    }
  }

  /** Python's identity `s.replace(c, with) == with.join(s.split(c))`. */
  lemma {:induction false} ReplaceIsJoinOfSplit(s: string, c: char, with: string)
    ensures ReplaceChar(s, c, with) == Join(Split(s, c), with)
    decreases |s|
  {
    if c in s {
      var i := IndexOf(s, c);
      var t := s[i + 1..];
      ReplaceIsJoinOfSplit(t, c, with);
      var parts := Split(s, c);
      assert parts == [s[..i]] + Split(t, c);
      assert parts[1..] == Split(t, c);
    }
  }

  /** Replacing a character by itself changes nothing. */
  lemma {:induction false} ReplaceByItself(s: string, c: char)
    ensures ReplaceChar(s, c, [c]) == s
    decreases |s|
  {
    if c in s {
      var i := IndexOf(s, c);
      CutAtFirst(s, c);
      ReplaceByItself(s[i + 1..], c);
    }
  }

  /** Splitting and joining back with the same separator gives the input. */
  lemma SplitThenJoin(s: string, sep: char)
    ensures Join(Split(s, sep), [sep]) == s
  {
    ReplaceIsJoinOfSplit(s, sep, [sep]);
    ReplaceByItself(s, sep);
  }

  // ---------------------------------------------------------------- lower

  predicate IsAsciiUpper(c: char) { 'A' <= c <= 'Z' }

  /** ASCII case mapping of one character. */
  function LowerChar(c: char): char {
    if IsAsciiUpper(c) then (c as int + 32) as char else c
  }

  /** `s.lower()` over ASCII letters: same length, no upper-case letter left,
      each upper-case letter replaced by its lower-case partner and every
      other character kept. */
  function Lower(s: string): (r: string)
    ensures |r| == |s|
    ensures forall k :: 0 <= k < |r| ==> !IsAsciiUpper(r[k])
    ensures forall k :: 0 <= k < |s| && !IsAsciiUpper(s[k]) ==> r[k] == s[k]
    ensures forall k :: 0 <= k < |s| && IsAsciiUpper(s[k]) ==> r[k] as int == s[k] as int + 32
  {
    seq(|s|, k requires 0 <= k < |s| => LowerChar(s[k]))
  }

  /** Lower-casing twice is lower-casing once. */
  lemma LowerIdempotent(s: string)
    ensures Lower(Lower(s)) == Lower(s)
  {
    var r := Lower(s);
    assert forall k :: 0 <= k < |r| ==> Lower(r)[k] == r[k];
  }
}
