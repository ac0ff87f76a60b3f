/**
 Normalisation of the two select boxes before they reach the prompts: the
 tone is passed on as `tone.lower()` and the platform as
 `platform.lower().split(' ')[0]`, the lower-cased text before the first
 space.
 */
module Options {
  import opened Strings

  /** The choices the form offers, in display order. */
  const ToneOptions: seq<string> := ["Informative", "Conversational", "Professional", "Enthusiastic"]
  const PlatformOptions: seq<string> := ["Instagram", "X (Twitter)", "Mixed"]

  /** The tone as the blog prompt receives it. */
  function ToneKey(tone: string): (r: string)
    ensures |r| == |tone|
    ensures forall k :: 0 <= k < |r| ==> !IsAsciiUpper(r[k])
  {
    Lower(tone)
  }

  /** The platform as the social-media prompt receives it: the longest
      space-free prefix of the lower-cased choice. */
  function PlatformKey(platform: string): (r: string)
    ensures ' ' !in r
    ensures |r| <= |platform| && r == Lower(platform)[..|r|]
    ensures |r| == |platform| || Lower(platform)[|r|] == ' '
  {
    var low := Lower(platform);
    SplitPiecesFree(low, ' ');
    var r := Split(low, ' ')[0];
    assert ' ' in low ==> r == low[..IndexOf(low, ' ')];
    r
  }

  /** Lower-casing a choice twice changes nothing, so the platform key of a
      key is the key itself. */
  lemma PlatformKeyIdempotent(platform: string)
    ensures PlatformKey(PlatformKey(platform)) == PlatformKey(platform)
  {
    var r := PlatformKey(platform);
    var low := Lower(platform);
    assert forall k :: 0 <= k < |r| ==> Lower(r)[k] == r[k];
    assert Lower(r) == r;
    SplitPiecesFree(r, ' ');
    assert Split(r, ' ') == [r];
  }

  /** The tone choices become "informative", "conversational",
      "professional" and "enthusiastic". */
  lemma ToneKeys()
    ensures ToneKey(ToneOptions[0]) == "informative"
    ensures ToneKey(ToneOptions[1]) == "conversational"
    ensures ToneKey(ToneOptions[2]) == "professional"
    ensures ToneKey(ToneOptions[3]) == "enthusiastic"
  {
  }

  /** The platform choices become "instagram", "x" and "mixed". */
  lemma PlatformKeys()
    ensures PlatformKey(PlatformOptions[0]) == "instagram"
    ensures PlatformKey(PlatformOptions[1]) == "x"
    ensures PlatformKey(PlatformOptions[2]) == "mixed"
  {
    assert PlatformKey("Instagram") == "instagram" by { SingleWordKey("Instagram", "instagram"); }
    assert PlatformKey("Mixed") == "mixed" by { SingleWordKey("Mixed", "mixed"); }
    assert PlatformKey("X (Twitter)") == "x" by { OneLetterKey("X (Twitter)", "x (twitter)"); }
  }

  /** A choice whose second character is a space keys to its first letter,
      lower-cased. */
  lemma OneLetterKey(platform: string, low: string)
    requires Lower(platform) == low && |low| >= 2 && low[0] != ' ' && low[1] == ' '
    ensures PlatformKey(platform) == [low[0]]
  {
    var r := PlatformKey(platform);
    assert |r| == 1;
  }

  /** A choice without a space keys to its whole lower-cased text. */
  lemma SingleWordKey(platform: string, low: string)
    requires Lower(platform) == low && ' ' !in low
    ensures PlatformKey(platform) == low
  {
  }
}
