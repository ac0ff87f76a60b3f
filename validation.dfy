/**
 The checks the form handler runs on submission, in their order: all four
 text fields present, the e-mail address shaped like `a@b.c`, and at least
 two keywords. The first failing check decides the error banner and nothing
 after it runs; when all pass, the parsed keyword list goes on to content
 generation.
 */
module Validation {
  import opened Strings
  import opened Email
  import opened Keywords

  datatype Refusal = MissingField | InvalidEmail | TooFewKeywords

  datatype Outcome = Refused(reason: Refusal) | Accepted(keywords: seq<string>)

  /** The error banner shown for each refusal. */
  function Message(r: Refusal): string {
    match r
    case MissingField => "Please fill in all required fields."
    case InvalidEmail => "Please enter a valid email address."
    case TooFewKeywords => "Please enter at least 2 keywords."
  }

  /** The three banners differ, so the user can tell which check failed. */
  lemma MessagesDistinct(p: Refusal, q: Refusal)
    requires p != q
    ensures Message(p) != Message(q)
  {
    assert Message(MissingField)[7] == 'f' && Message(InvalidEmail)[7] == 'e'
           && Message(TooFewKeywords)[7] == 'e' && Message(InvalidEmail)[15] == 'v'
           && Message(TooFewKeywords)[15] == ' ';
  }

  /** Python truthiness of a string: only the empty string is false, so a
      field holding only spaces counts as filled in. */
  predicate Filled(name: string, description: string, keywordText: string, email: string) {
    name != [] && description != [] && keywordText != [] && email != []
  }

  /** The submission checks. Each refusal is described by the condition
      under which it is the result, so the order of the checks shows in the
      contract: a missing field wins over everything, a bad address over a
      short keyword list. */
  function Validate(name: string, description: string, keywordText: string, email: string): (o: Outcome)
    ensures o == Refused(MissingField) <==> !Filled(name, description, keywordText, email)
    ensures o == Refused(InvalidEmail) <==> Filled(name, description, keywordText, email) && !Shape(email)
    ensures o == Refused(TooFewKeywords) <==>
              Filled(name, description, keywordText, email) && Shape(email)
              && |ParseKeywords(keywordText)| < 2
    ensures o.Accepted? <==>
              Filled(name, description, keywordText, email) && Shape(email)
              && |ParseKeywords(keywordText)| >= 2
    ensures o.Accepted? ==> o.keywords == ParseKeywords(keywordText)
  {
    if !Filled(name, description, keywordText, email) then Refused(MissingField)
    else if !Matches(email) then Refused(InvalidEmail)
    else
      var keywords := ParseKeywords(keywordText);
      if |keywords| < 2 then Refused(TooFewKeywords) else Accepted(keywords)
  }

  /** An accepted submission has every field filled in, a well-shaped
      address, and at least two keywords, each non-empty, stripped and on
      one line. */
  lemma AcceptedInput(name: string, description: string, keywordText: string, email: string)
    requires Validate(name, description, keywordText, email).Accepted?
    ensures var ks := Validate(name, description, keywordText, email).keywords;
            && Filled(name, description, keywordText, email)
            && AtThenDot(email)
            && |ks| >= 2
            && forall k :: 0 <= k < |ks| ==> ks[k] != [] && IsStripped(ks[k]) && '\n' !in ks[k]
  {
    ShapeIffAtThenDot(email);
  }

  /** Keyword text made only of whitespace and line breaks passes the
      presence check but yields no keyword, so a submission that gets past
      the address check is refused for its keywords. */
  lemma BlankKeywordsRefused(name: string, description: string, keywordText: string, email: string)
    requires name != [] && description != [] && email != []
    requires keywordText != [] && AllSpace(keywordText)
    ensures Validate(name, description, keywordText, email) ==
              if Shape(email) then Refused(TooFewKeywords) else Refused(InvalidEmail)
  {
    ParseEmptyIff(keywordText);
  }

  /** A single line of keywords is never enough, however it is spaced. */
  lemma OneLineRefused(name: string, description: string, keywordText: string, email: string)
    requires Filled(name, description, keywordText, email) && Shape(email)
    requires '\n' !in keywordText
    ensures Validate(name, description, keywordText, email) == Refused(TooFewKeywords)
  {
    SingleLine(keywordText);
  }

  /** A keyword repeated on two lines counts twice, so it is enough to pass. */
  lemma RepeatedKeywordAccepted()
    ensures Validate("n", "d", "a\na", "a@b.c") == Accepted(["a", "a"])
  {
    ShapeIntro("a@b.c", "a", "b", "c", "");
    RepeatedLineKept();
  }
}
