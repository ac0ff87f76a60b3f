# Garden marketing form: a verified model of its string logic

`garden_garden.py` is a Streamlit page. It collects a product name, a
description, one keyword per line, a tone, a social platform and an e-mail
address. It asks a chat-completion model for a blog post and some social
posts, and mails the result as HTML. This project models the deterministic
string logic that decides and shapes that data: the validation of the
submitted form (with the keyword parsing it relies on), the normalisation of
the tone and platform options, and two text steps, the `', '` join of the
keywords and the `<br>` replacement in the e-mail body. The prompt wording,
the subject line, the error strings returned on failed calls and the HTML
template around these steps are not modelled:

- **Strings** (`strings.dfy`): the parts of Python's `str` the page uses.
  - `isspace`, using Python's full whitespace set: ASCII 9–13, 28–31 and
    space, plus U+0085, U+00A0, U+1680, U+2000–U+200A, U+2028, U+2029,
    U+202F, U+205F and U+3000.
  - `strip()`.
  - `split(sep)` and `replace(old, new)`, both with a one-character
    separator or pattern.
  - `sep.join(parts)`.
  - `lower()` on ASCII letters.
- **Email** (`email.dfy`): the address check `re.match(r"[^@]+@[^@]+\.[^@]+", email)`.
  - `Shape` states the pattern as a decomposition `a@b.c…`, where `a`, `b`
    and `c` are non-empty, contain no `@`, and any text may follow (because
    `re.match` anchors only at the start).
  - `Matches` is a procedure that decides it: the first `@` is not at the
    start, and the `@`-free run after it has a `.` with a character on each
    side.
  - The two are proved to agree.
- **Keywords** (`keywords.dfy`): `[k.strip() for k in keywords.split('\n') if k.strip()]`.
- **Validation** (`validation.dfy`): the submit handler's three checks, in
  their order, each with its error banner. It returns either the first
  refusal or the keyword list.
- **Options** (`options.dfy`): the tone and platform option lists, and the
  keys passed on as `tone.lower()` and `platform.lower().split(' ')[0]`.
- **Content** (`content.dfy`): the two text transforms.
  - The keyword list is written into both prompts as `', '.join(keywords)`.
  - Each generated text is placed in the HTML body as `text.replace('\n', '<br>')`.

The code is pure, so the model is made of datatypes, functions and lemmas.
Python truthiness of a string is modelled as "non-empty".

## Model

| member | source | states |
|---|---|---|
| Strings.IsSpace | garden_garden.py:257 | the characters `strip()` removes: ASCII 9–13, 28–31 and space, and the Unicode spaces Python's `str.isspace` accepts |
| Strings.Strip | garden_garden.py:257 | `k.strip()` has no leading or trailing whitespace, and is a contiguous slice of `k` with only whitespace cut off on either side |
| Strings.StripEmptyIff | garden_garden.py:257 | the `if k.strip()` filter drops a piece exactly when it is all whitespace |
| Strings.StripIdempotent | garden_garden.py:257 | stripping a stripped string changes nothing |
| Strings.StripKeepsOut | garden_garden.py:257 | stripping introduces no character, so a line without `\n` stays without it |
| Strings.Split | garden_garden.py:257 | `split('\n')` always returns at least one piece |
| Strings.SplitCount | garden_garden.py:257 | `split('\n')` returns one more piece than there are line breaks |
| Strings.SplitPiecesFree | garden_garden.py:257 | no piece of `split(sep)` contains `sep` |
| Strings.SplitAtSep | garden_garden.py:257 | splitting `a + sep + t` with `a` separator-free gives `a` followed by the pieces of `t` |
| Strings.SplitThenJoin | garden_garden.py:257 | joining the pieces of `split(sep)` with `sep` gives back the text |
| Strings.JoinThenSplit | garden_garden.py:257 | splitting a join of separator-free parts gives back the parts |
| Strings.Join | garden_garden.py:50 | (also line 107) `sep.join(parts)`: `""` for no parts, the part itself for one, otherwise the first part, `sep`, and the join of the rest |
| Strings.JoinLength | garden_garden.py:50 | joining nothing gives `""`; otherwise the length is the sum of the parts plus one separator between each neighbouring pair |
| Strings.JoinAt | garden_garden.py:50 | a join splits at any part boundary into the join of the parts before, the separator, and the join of the parts after, so order is kept |
| Strings.ReplaceChar | garden_garden.py:165 | (also line 172) `s.replace(c, with)` for one character `c`: `s` itself when `c` is absent, otherwise the text before the first `c`, then `with`, then the replacement of the rest |
| Strings.CountAppend | garden_garden.py:165 | occurrences of a character add up over a concatenation |
| Strings.ReplaceRemoves | garden_garden.py:165 | after `replace(c, with)`, where `with` lacks `c`, no `c` is left |
| Strings.ReplaceLength | garden_garden.py:165 | `replace(c, with)` grows the text by `|with| - 1` per occurrence of `c` |
| Strings.ReplaceIsJoinOfSplit | garden_garden.py:165 | `s.replace(c, w)` equals `w.join(s.split(c))` |
| Strings.ReplaceByItself | garden_garden.py:165 | replacing a character by itself changes nothing |
| Strings.Lower | garden_garden.py:269 | `lower()` keeps the length, leaves no upper-case ASCII letter, changes no other character, and maps each upper-case letter to its lower-case letter |
| Strings.LowerIdempotent | garden_garden.py:269 | lowering twice is lowering once |
| Email.Shape | garden_garden.py:252 | what the pattern accepts: `a + "@" + b + "." + c + rest` with `a`, `b`, `c` non-empty and `@`-free and `rest` arbitrary, since `re.match` anchors only at the start |
| Email.Matches | garden_garden.py:252 | the decision procedure answers true exactly when the address has the shape `a@b.c…` |
| Email.ShapeIffAtThenDot | garden_garden.py:252 | the shape holds iff the first `@` is at index k ≥ 1 and the `@`-free run after it has a `.` at index i with 1 ≤ i ≤ length − 2 |
| Email.RunOf | garden_garden.py:252 | the longest `@`-free prefix: a prefix without `@`, followed by `@` or by the end |
| Email.AcceptedExamples | garden_garden.py:252 | `a@b.c@x`, `a@b.c.d` and `me@x.org ` are accepted |
| Email.RefusedExamples | garden_garden.py:252-254 | `@b.c`, `a@b`, `a@.c` and `a@b.` are refused |
| Keywords.StripAll | garden_garden.py:257 | one stripped piece per piece, in order |
| Keywords.KeepNonBlank | garden_garden.py:257 | the kept keywords are non-empty and stripped, no more than the pieces, an order-preserving subsequence of the stripped pieces, and include every non-blank stripped piece |
| Keywords.KeepNonBlankCounts | garden_garden.py:257 | the empty string is never kept, and every non-empty stripped piece is kept exactly as many times as it occurs; with the subsequence clause this fixes the list |
| Keywords.KeepNonBlankEmptyIff | garden_garden.py:257 | nothing is kept exactly when every piece is all whitespace |
| Keywords.KeepNonBlankKeepsOut | garden_garden.py:257 | a character absent from every piece is absent from every keyword |
| Keywords.ParseKeywords | garden_garden.py:257 | each keyword is non-empty, stripped and `\n`-free; keywords keep their line order; there are at most (line breaks + 1) of them; every non-blank stripped line is among them exactly as many times as it occurs among the lines |
| Keywords.RepeatedLineKept | garden_garden.py:257 | a repeated line is a repeated keyword: `"a\na"` gives `["a", "a"]` |
| Keywords.JoinAllSpace | garden_garden.py:257 | with a whitespace separator, a join is all whitespace exactly when every part is |
| Keywords.ParseEmptyIff | garden_garden.py:257 | the keyword list is empty exactly when the text is only whitespace and line breaks |
| Keywords.SingleLine | garden_garden.py:257 | text without a line break yields its stripped self, or nothing if it is blank |
| Validation.Message | garden_garden.py:248 | (also lines 253 and 260) the banner for each refusal: "Please fill in all required fields.", "Please enter a valid email address.", "Please enter at least 2 keywords." |
| Validation.MessagesDistinct | garden_garden.py:248 | (also lines 253 and 260) the three banners are different strings |
| Validation.Validate | garden_garden.py:246-261 | refuses for a missing field exactly when a field is empty; for the address exactly when the fields are filled and the address lacks the shape; for the keywords exactly when both earlier checks pass and fewer than two keywords are parsed; otherwise accepts with the parsed list |
| Validation.AcceptedInput | garden_garden.py:252-261 | an accepted submission has all fields, a well-shaped address, and at least two non-empty, stripped, single-line keywords |
| Validation.BlankKeywordsRefused | garden_garden.py:247-261 | non-empty whitespace-only keyword text passes the presence check, then fails the address check or the two-keyword check |
| Validation.RepeatedKeywordAccepted | garden_garden.py:257-261 | two lines holding the same keyword pass the two-keyword check: the submission `("n", "d", "a\na", "a@b.c")` is accepted with `["a", "a"]` |
| Validation.OneLineRefused | garden_garden.py:257-260 | keyword text on a single line never reaches two keywords |
| Options.ToneOptions | garden_garden.py:233 | the four tones offered: `Informative`, `Conversational`, `Professional`, `Enthusiastic` |
| Options.PlatformOptions | garden_garden.py:236 | the three platforms offered: `Instagram`, `X (Twitter)`, `Mixed` |
| Options.ToneKey | garden_garden.py:269 | the tone key has the option's length and no upper-case letter |
| Options.ToneKeys | garden_garden.py:269 | the four tones become `informative`, `conversational`, `professional` and `enthusiastic` |
| Options.PlatformKey | garden_garden.py:278 | the platform key contains no space and is the prefix of the lower-cased option that ends at its first space, or the whole option if it has none |
| Options.PlatformKeyIdempotent | garden_garden.py:278 | normalising a key again changes nothing |
| Options.PlatformKeys | garden_garden.py:278 | `Instagram`, `X (Twitter)` and `Mixed` become `instagram`, `x` and `mixed` |
| Content.KeywordText | garden_garden.py:50 | (also line 107) no keywords give `""`; one keyword gives itself; otherwise the length is the sum of keyword lengths plus 2·(n − 1) |
| Content.KeywordTextAt | garden_garden.py:50 | (also line 107) the keyword text is the keywords in their order with `, ` between neighbours |
| Content.KeywordTextAmbiguous | garden_garden.py:50 | (also line 107) the separator is not escaped: the single keyword `soil, compost` reads like two keywords |
| Content.HtmlBreaks | garden_garden.py:165 | (also line 172) the HTML form has no `\n`, and its length is the text's plus 3 per line break |
| Content.BreaksJoinLines | garden_garden.py:165 | (also line 172) the HTML form is the text's lines joined with `<br>` |
| Content.UntagBreaks | garden_garden.py:165 | (also line 172) in a text without a literal `<br>`, replacing each tag of the HTML form by `w` is the same as replacing each line break of the text by `w` |
| Content.RestoreUndoesBreaks | garden_garden.py:165 | (also line 172) turning the tags back into line breaks recovers a text that has no literal `<br>` |
| Content.DropBreaks | garden_garden.py:165 | (also line 172) deleting the tags leaves the text without its line breaks: the lines run together in order, with length reduced by the number of line breaks |
| Content.NoBreaksUnchanged | garden_garden.py:165 | (also line 172) a text without line breaks is placed unchanged |
| Content.BreakTagCollision | garden_garden.py:165 | (also line 172) nothing is escaped: a literal `<br>` and a line break give the same HTML |

## Left out

- The chat-completion calls and their error strings on exceptions
  (garden_garden.py:63-76, 120-133): network calls into a library.
- `random.choice` of an emoji set (garden_garden.py:99): it is random and
  affects only prompt wording.
- Building the MIME message and the SMTP session (garden_garden.py:139-142,
  181-191): library I/O.
- The Streamlit page: widgets, progress bar, status text and fallback
  display (garden_garden.py:194-243, 264-304).
- The slider bounds 2–8 (garden_garden.py:239). The widget enforces them,
  not the code.
- Environment and configuration loading (garden_garden.py:13-22),
  `time.strftime` in the subject (garden_garden.py:285) and `time.sleep`
  (garden_garden.py:302): environment, clock and sleep.
- The prompt texts and the CSS/HTML e-mail template (garden_garden.py:145-178).
  Only the `', '.join` and `replace('\n', '<br>')` steps inside them are
  modelled.
- Strings.Lower: maps only ASCII letters, because Python's full Unicode case
  mapping is not modelled. The option lists are ASCII, so their keys are
  exact.
- Email.Matches: the one pattern is modelled directly as a predicate. A
  general regular-expression engine is not.
- Strings.Split and Strings.ReplaceChar: only one-character separators and
  patterns are modelled. Those are the only ones the page uses.
