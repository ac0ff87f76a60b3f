/**
 Keyword parsing in the form handler: the keyword text area holds one
 keyword per line, and `[k.strip() for k in keywords.split('\n') if k.strip()]`
 turns it into the keyword list.
 */
module Keywords {
  import opened Strings

  /** `xs` is `ys` with some elements left out, the rest in their order. */
  predicate IsSubsequence(xs: seq<string>, ys: seq<string>)
  {
    xs == [] || (ys != [] && ((xs[0] == ys[0] && IsSubsequence(xs[1..], ys[1..]))
                              || IsSubsequence(xs, ys[1..])))
  }

  /** Every piece stripped. */
  function StripAll(pieces: seq<string>): (r: seq<string>)
    ensures |r| == |pieces|
    ensures forall k :: 0 <= k < |r| ==> r[k] == Strip(pieces[k])
  {
    if pieces == [] then [] else [Strip(pieces[0])] + StripAll(pieces[1..])
  }

  /** The comprehension `[p.strip() for p in pieces if p.strip()]`: the
      stripped pieces that are not empty, in their order. Every non-blank
      stripped piece is kept (`KeepNonBlankCounts`: as often as it occurs),
      and nothing else gets in. */
  function KeepNonBlank(pieces: seq<string>): (r: seq<string>)
    ensures |r| <= |pieces|
    ensures forall k :: 0 <= k < |r| ==> r[k] != [] && IsStripped(r[k])
    ensures IsSubsequence(r, StripAll(pieces))
    ensures forall j :: 0 <= j < |pieces| && Strip(pieces[j]) != [] ==> Strip(pieces[j]) in r
  {
    if pieces == [] then []
    else
      var k := Strip(pieces[0]);
      var rest := KeepNonBlank(pieces[1..]);
      assert StripAll(pieces)[1..] == StripAll(pieces[1..]);
      assert forall j :: 1 <= j < |pieces| ==> pieces[j] == pieces[1..][j - 1];
      if k == [] then rest
      else
        var r := [k] + rest;
        assert r[1..] == rest;
        r
  }

  /** Each non-empty stripped piece is kept exactly as many times as it
      occurs among the stripped pieces, and the empty one never: with
      `IsSubsequence` this fixes the result completely. */
  lemma {:induction false} KeepNonBlankCounts(pieces: seq<string>)
    ensures [] !in KeepNonBlank(pieces)
    ensures forall x :: x != [] ==> multiset(KeepNonBlank(pieces))[x] == multiset(StripAll(pieces))[x]
  {
    if pieces != [] {
      KeepNonBlankCounts(pieces[1..]);
      var k, rest := Strip(pieces[0]), KeepNonBlank(pieces[1..]);
      assert StripAll(pieces) == [k] + StripAll(pieces[1..]);
      if k != [] {
        assert KeepNonBlank(pieces) == [k] + rest;
      }
    }
  }

  /** A kept keyword is a stripped piece, so it has no character that the
      pieces lack. */
  lemma {:induction false} KeepNonBlankKeepsOut(pieces: seq<string>, c: char)
    requires forall j :: 0 <= j < |pieces| ==> c !in pieces[j]
    ensures forall k :: 0 <= k < |KeepNonBlank(pieces)| ==> c !in KeepNonBlank(pieces)[k]
  {
    if pieces != [] {
      StripKeepsOut(pieces[0], c);
      KeepNonBlankKeepsOut(pieces[1..], c);
    }
  }

  /** Nothing is kept exactly when every piece is all whitespace. */
  lemma {:induction false} KeepNonBlankEmptyIff(pieces: seq<string>)
    ensures KeepNonBlank(pieces) == [] <==> forall j :: 0 <= j < |pieces| ==> AllSpace(pieces[j])
  {
    if pieces != [] {
      KeepNonBlankEmptyIff(pieces[1..]);
      StripEmptyIff(pieces[0]);
      assert forall j :: 1 <= j < |pieces| ==> pieces[j] == pieces[1..][j - 1];
    }
  }

  /** The keyword list of a keyword text: the stripped lines that are not
      blank, each as often as it occurs, in line order. */
  function ParseKeywords(text: string): (r: seq<string>)
    ensures forall k :: 0 <= k < |r| ==> r[k] != [] && IsStripped(r[k]) && '\n' !in r[k]
    ensures |r| <= Count(text, '\n') + 1
    ensures IsSubsequence(r, StripAll(Split(text, '\n')))
    ensures forall j :: 0 <= j < |Split(text, '\n')| && Strip(Split(text, '\n')[j]) != [] ==>
                          Strip(Split(text, '\n')[j]) in r
    ensures forall x :: x != [] ==> multiset(r)[x] == multiset(StripAll(Split(text, '\n')))[x]
  {
    var lines := Split(text, '\n');
    SplitCount(text, '\n');
    SplitPiecesFree(text, '\n');
    KeepNonBlankKeepsOut(lines, '\n');
    KeepNonBlankCounts(lines);
    KeepNonBlank(lines)
  }

  lemma {:induction false} AllSpaceAppend(a: string, b: string)
    ensures AllSpace(a + b) <==> AllSpace(a) && AllSpace(b)
  {
    assert forall k :: 0 <= k < |a| ==> (a + b)[k] == a[k];
    assert forall k :: 0 <= k < |b| ==> (a + b)[|a| + k] == b[k];
  }

  /** With a whitespace separator, a join is all whitespace exactly when each
      part is. */
  lemma {:induction false} JoinAllSpace(parts: seq<string>, sep: string)
    requires AllSpace(sep)
    ensures AllSpace(Join(parts, sep)) <==> forall j :: 0 <= j < |parts| ==> AllSpace(parts[j])
  {
    if |parts| > 1 {
      JoinAllSpace(parts[1..], sep);
      AllSpaceAppend(parts[0] + sep, Join(parts[1..], sep));
      AllSpaceAppend(parts[0], sep);
      assert forall j :: 1 <= j < |parts| ==> parts[j] == parts[1..][j - 1];
    }
  }

  /** A keyword text yields no keyword exactly when it consists of
      whitespace and line breaks only. */
  lemma ParseEmptyIff(text: string)
    ensures ParseKeywords(text) == [] <==> AllSpace(text)
  {
    var lines := Split(text, '\n');
    KeepNonBlankEmptyIff(lines);
    SplitThenJoin(text, '\n');
    JoinAllSpace(lines, "\n");
  }

  /** A keyword text without line breaks is one keyword, or none if blank. */
  lemma SingleLine(text: string)
    requires '\n' !in text
    ensures ParseKeywords(text) == if Strip(text) == [] then [] else [Strip(text)]
  {
    assert Split(text, '\n') == [text];
    assert KeepNonBlank([text][1..]) == [];
  }

  /** A line repeated in the text is a keyword repeated in the list. */
  lemma RepeatedLineKept()
    ensures ParseKeywords("a\na") == ["a", "a"]
  {
    TwoLines();
    KeptTwice();
  }

  lemma TwoLines()
    ensures Split("a\na", '\n') == ["a", "a"]
  {
    assert "a\na" == "a" + ['\n'] + "a";
    SplitAtSep("a", "a", '\n');
    assert Split("a", '\n') == ["a"];
  }

  lemma KeptTwice()
    ensures KeepNonBlank(["a", "a"]) == ["a", "a"]
  {
    assert SkipSpace("a", 0) == 0 && SkipSpaceBack("a", 0, 1) == 1 && Strip("a") == "a";
    assert KeepNonBlank(["a", "a"][1..]) == ["a"];
  }
}
