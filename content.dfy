/**
 The two text transforms applied to content on its way into the prompts and
 the e-mail: the keyword list is written into both prompts as
 `', '.join(keywords)`, and each generated text is put into the HTML body as
 `text.replace('\n', '<br>')`, with no other escaping.
 */
module Content {
  import opened Strings

  /** The keyword list as the prompts spell it out. */
  function KeywordText(keywords: seq<string>): (r: string)
    ensures keywords == [] ==> r == []
    ensures |keywords| == 1 ==> r == keywords[0]
    ensures keywords != [] ==> |r| == TotalLength(keywords) + 2 * (|keywords| - 1)
  {
    JoinLength(keywords, ", ");
    Join(keywords, ", ")
  }

  /** The keyword text of a list is the keyword text of its first part, a
      comma and a space, and the keyword text of the rest: the keywords keep
      their order. */
  lemma KeywordTextAt(keywords: seq<string>, i: nat)
    requires 0 < i < |keywords|
    ensures KeywordText(keywords) == KeywordText(keywords[..i]) + ", " + KeywordText(keywords[i..])
  {
    JoinAt(keywords, ", ", i);
  }

  /** The separator is not escaped, so one keyword holding ", " reads the
      same as two keywords. */
  lemma KeywordTextAmbiguous()
    ensures KeywordText(["soil, compost"]) == KeywordText(["soil", "compost"])
  {
    assert ["soil", "compost"][1..] == ["compost"];
  }

  /** A generated text as it is placed in the HTML e-mail: every line break
      becomes `<br>`. */
  function HtmlBreaks(text: string): (r: string)
    ensures '\n' !in r
    ensures |r| == |text| + 3 * Count(text, '\n')
  {
    ReplaceRemoves(text, '\n', "<br>");
    ReplaceLength(text, '\n', "<br>");
    ReplaceChar(text, '\n', "<br>")
  }

  /** Equivalently, the lines of the text joined with `<br>`. */
  lemma BreaksJoinLines(text: string)
    ensures HtmlBreaks(text) == Join(Split(text, '\n'), "<br>")
  {
    ReplaceIsJoinOfSplit(text, '\n', "<br>");
  }

  /** The tag `<br>` starts at index `i` of `s`. */
  predicate TagAt(s: string, i: int) {
    0 <= i && i + 4 <= |s| && s[i] == '<' && s[i + 1] == 'b' && s[i + 2] == 'r' && s[i + 3] == '>'
  }

  /** `s` contains the tag `<br>`. */
  predicate HasBreakTag(s: string) {
    exists i :: 0 <= i < |s| && TagAt(s, i)
  }

  /** Replace each `<br>`, read left to right, by `w`. */
  function Untag(s: string, w: string): string
    decreases |s|
  {
    if TagAt(s, 0) then w + Untag(s[4..], w)
    else if s == [] then []
    else [s[0]] + Untag(s[1..], w)
  }

  /** A slice of a tag-free text is tag-free. */
  lemma NoTagSlice(s: string, lo: nat, hi: nat)
    requires lo <= hi <= |s| && !HasBreakTag(s)
    ensures !HasBreakTag(s[lo..hi])
  {
    if HasBreakTag(s[lo..hi]) {
      var i :| 0 <= i < hi - lo && TagAt(s[lo..hi], i);
      assert TagAt(s, lo + i);
    }
  }

  /** Untagging passes over a tag-free prefix unchanged, provided the text
      after it is empty or starts with '<' (so no tag can straddle the two). */
  lemma {:induction false} UntagPrefix(a: string, x: string, w: string)
    requires !HasBreakTag(a)
    requires x == [] || x[0] == '<'
    ensures Untag(a + x, w) == a + Untag(x, w)
    decreases |a|
  {
    if a != [] {
      var s := a + x;
      assert !TagAt(s, 0) by {
        if TagAt(s, 0) {
          if |a| >= 4 {
            assert TagAt(a, 0);
          }
        }
      }
      assert s[0] == a[0] && s[1..] == a[1..] + x;
      assert Untag(s, w) == [a[0]] + Untag(a[1..] + x, w);
      NoTagSlice(a, 1, |a|);
      assert a[1..|a|] == a[1..];
      UntagPrefix(a[1..], x, w);
      assert [a[0]] + (a[1..] + Untag(x, w)) == a + Untag(x, w);
    } else {
      assert a + x == x;
    }
  }

  lemma UntagTag(rest: string, w: string)
    ensures Untag("<br>" + rest, w) == w + Untag(rest, w)
  {
    assert TagAt("<br>" + rest, 0);
    assert ("<br>" + rest)[4..] == rest;
  }

  /** The HTML form of a text with its first line break at `i`. */
  lemma BreaksAtFirst(text: string, i: nat)
    requires '\n' in text && i == IndexOf(text, '\n')
    ensures HtmlBreaks(text) == text[..i] + "<br>" + HtmlBreaks(text[i + 1..])
  {
  }

  /** Regrouping a three-part concatenation; kept as a lemma so that the
      step does not bring every sequence fact into the caller's proof. */
  lemma Rejoin(s: string, a: string, m: string, t: string)
    requires s == a + m + t
    ensures s == a + (m + t)
  {
  }

  /** In a text that does not itself contain `<br>`, the tags of its HTML
      form are exactly the inserted ones: replacing them by `w` is the same
      as replacing the original line breaks by `w`. */
  lemma {:induction false} UntagBreaks(text: string, w: string)
    requires !HasBreakTag(text)
    ensures Untag(HtmlBreaks(text), w) == ReplaceChar(text, '\n', w)
    decreases |text|
  {
    if '\n' !in text {
      NoBreaksUnchanged(text);
      UntagPrefix(text, [], w);
      assert text + [] == text;
    } else {
      var i := IndexOf(text, '\n');
      var a, t := text[..i], text[i + 1..];
      NoTagSlice(text, 0, i);
      NoTagSlice(text, i + 1, |text|);
      assert text[i + 1..|text|] == t;
      UntagBreaks(t, w);
      var rest := HtmlBreaks(t);
      BreaksAtFirst(text, i);
      Rejoin(HtmlBreaks(text), a, "<br>", rest);
      UntagPrefix(a, "<br>" + rest, w);
      UntagTag(rest, w);
      Rejoin(ReplaceChar(text, '\n', w), a, w, ReplaceChar(t, '\n', w));
    }
  }

  /** For a text without a literal `<br>`, turning the tags back into line
      breaks recovers the text exactly. */
  lemma RestoreUndoesBreaks(text: string)
    requires !HasBreakTag(text)
    ensures Untag(HtmlBreaks(text), "\n") == text
  {
    UntagBreaks(text, "\n");
    ReplaceByItself(text, '\n');
  }

  /** For a text without a literal `<br>`, deleting the tags leaves the
      text's lines run together in their order: no line break is left and
      only the line breaks are gone. */
  lemma DropBreaks(text: string)
    requires !HasBreakTag(text)
    ensures var r := Untag(HtmlBreaks(text), "");
            && r == Join(Split(text, '\n'), "")
            && '\n' !in r
            && |r| == |text| - Count(text, '\n')
  {
    var r := Untag(HtmlBreaks(text), "");
    assert r == ReplaceChar(text, '\n', "") by {
      UntagBreaks(text, "");
    }
    assert r == Join(Split(text, '\n'), "") by {
      ReplaceIsJoinOfSplit(text, '\n', "");
    }
    assert '\n' !in r by {
      ReplaceRemoves(text, '\n', "");
    }
    assert |r| == |text| - Count(text, '\n') by {
      ReplaceLength(text, '\n', "");
    }
  }

  /** A text without line breaks goes into the e-mail unchanged. */
  lemma NoBreaksUnchanged(text: string)
    requires '\n' !in text
    ensures HtmlBreaks(text) == text
  {
  }

  /** Without escaping, a literal `<br>` in generated text and a line break
      look the same in the e-mail. */
  lemma BreakTagCollision()
    ensures HtmlBreaks("<br>") == HtmlBreaks("\n")
  {
    assert IndexOf("\n", '\n') == 0;
  }
}
