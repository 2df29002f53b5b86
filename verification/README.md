# Fake News Checker: the text rules, modelled and proved in Dafny

The Fake News Checker is a small Streamlit app. The user pastes a news article and
presses "Check News". The app then does four things with the text:

- It asks an AI service for an analysis.
- It reads two numbers out of the reply: the AI-generated likelihood and the
  credibility score. The fake-content level is derived from the credibility score.
- It wraps every bias word of a fixed eight-word lexicon in the article as `:red[...]`.
- It turns a sentiment score into one of three bias verdicts.

A blank article gets a warning and nothing else.

This project models the deterministic rules behind those steps and proves what they do:

| file | module | models |
|---|---|---|
| `Wrappers.dfy` | `Wrappers` | `Option`: a value that may be missing |
| `CharClass.dfy` | `CharClass` | word characters for `\b`, digits for `\d`, whitespace for `\s` and `strip()`, case folding |
| `Highlighter.dfy` | `Highlighter` | `highlight_bias`: the lexicon regex under `re.IGNORECASE`, substituted left to right |
| `Extraction.dfy` | `Extraction` | the two `re.search` patterns read from the AI reply, and `100 - score` |
| `Sentiment.dfy` | `Sentiment` | `detect_bias`: strict thresholds at -0.3 and 0.3 |
| `NewsCheck.dfy` | `NewsCheck` | the button handler: the `strip()` guard and the report it produces |

## How the regular expressions are modelled

**Highlighter.**
- The pattern tried at one position is an explicit alternation over the lexicon in
  order (`MatchFrom`). It uses Python's `\b`: a change between a word character
  (letter, digit or `_`) and a non-word character, where the ends of the text count as
  non-word.
- `re.sub` is a scan (`ScanWith`). It cuts the text into pieces, each a character kept
  as it is or a match wrapped in `:red[` and `]`. The scan is written over a table of
  what the pattern finds at each position. Its properties are proved for any table that
  fits the text, then applied to the lexicon's table.

**Extraction.**
- `re.search` tries the pattern at every position from the left, the end of the text
  included, and keeps the first match.
- At one position the engine backtracks. It takes as much whitespace as there is for
  `\s*`, then up to three digits for `\d{1,3}`, then checks the tail. On failure it gives
  back one digit at a time, and then one whitespace character at a time.
  - `DigitsThenTail` models the giving back of digits.
  - `SpacesThenDigits` models the giving back of whitespace.
- Lemmas then show what this amounts to:
  - The likelihood is the whole run of digits, which must be one to three digits long
    and followed by `%`.
  - The credibility score is the first three digits of the run.

## Behaviour as coded

The model follows `app.py` as written:

- A reply without a match gives no value: `Option.None`. The code has no default of 0
  or 50; it only skips the chart.
- The values are not clamped to 0..100. A likelihood or score is anything from 0 to 999,
  and the fake-content level `100 - score` ranges over -899..100.
- `\s*` accepts no whitespace at all: `credibility score:80` matches.
- Four or more digits after `credibility score:` still match, and give the first three:
  `1234` gives 123. After `AI-generated likelihood:` they never match, because `%` must
  follow the digit group directly.

## Model

| member | source | states |
|---|---|---|
| Highlighter.Boundary | app.py:23 | models `\b`: a change between a word character and a non-word character, the ends of the text counting as non-word; its properties are lemmas `MatchFlanked` and `OnlyWholeTextInOneWord` |
| Highlighter.WordAt | app.py:23 | models one alternative of the pattern: the word, in any letter case, between two `\b`; its properties are lemmas `MatchFromExact` and `AtMostOneWord` |
| Highlighter.MatchFrom | app.py:23 | models the alternation tried in order from the `k`-th word; a match lies inside the text and is not empty; its properties are lemmas `MatchFromExact` and `AtMostOneWord` |
| Highlighter.MatchAt | app.py:23 | models the compiled pattern tried at one position; its properties are lemmas `MatchAtExact`, `MatchFlanked` and `NoMatchInsideMatch` |
| Highlighter.ScanWith | app.py:26 | models `re.sub` scanning left to right over a table of matches; its properties are lemmas `ScanErases`, `ScanStartsAscending`, `ScanStartsSound`, `ScanStartsComplete`, `ScanMarksFit` and `ScanAligned` |
| Highlighter.Render | app.py:26 | models the replacement `:red[...]` around each match; its properties are lemmas `RenderLength` and `PiecesAround` |
| Highlighter.Highlight | app.py:25-26 | models `highlight_bias`; its properties are lemmas `HighlightErases`, `HighlightLength`, `HighlightKeepsCase`, `HighlightWrapsInPlace`, `HighlightWrapsOccurrence` and `HighlightUnchanged` |
| Highlighter.LexiconWellFormed | app.py:22 | every word of the lexicon is a non-empty run of lower-case letters |
| Highlighter.MatchFromExact | app.py:23 | the alternation matches at a position exactly when one of the words it tries occurs there as a whole word, and it reports that word's length |
| Highlighter.MatchAtExact | app.py:23 | the compiled pattern matches at `i` exactly when a lexicon word occurs there as a whole word, in any letter case |
| Highlighter.MatchFlanked | app.py:23 | a match has a non-word character or the end of the text on both sides |
| Highlighter.NoMatchInsideMatch | app.py:23 | no lexicon word occurs as a whole word starting strictly inside another match |
| Highlighter.AtMostOneWord | app.py:22-23 | two lexicon words matching at the same position are the same word, so the order of the alternation does not change what is wrapped |
| Highlighter.TableExact | app.py:23 | the table of the pattern reports a match exactly where a lexicon word occurs as a whole word, with that word's length |
| Highlighter.TableNoNested | app.py:23 | no match of the pattern starts inside another match |
| Highlighter.ScanErases | app.py:26 | for any table that fits the text, deleting the markers from the scan of `s[i..]` gives back `s[i..]` |
| Highlighter.RenderLength | app.py:26 | rendering adds exactly six characters per wrapped match |
| Highlighter.ScanStartsAscending | app.py:26 | the scan wraps positions from left to right, each after the previous one |
| Highlighter.ScanStartsSound | app.py:26 | every position the scan wraps is one where the table reports a match |
| Highlighter.ScanStartsComplete | app.py:26 | when no match starts inside another, every position with a match is wrapped |
| Highlighter.ScanMarksFit | app.py:26 | every wrapped piece is the text the table reports at its position |
| Highlighter.ScanAligned | app.py:26 | every wrapped piece of the scan from `i` stands at its position: `i` plus the length of the text the pieces before it cover |
| Highlighter.PiecesAround | app.py:26 | cutting the pieces around one of them cuts their rendering and their erasure alike |
| Highlighter.MarkInPlace | app.py:26 | a wrapped piece at its position is the text there, and the pieces before it cover exactly the text before it |
| Highlighter.WrappedInPlace | app.py:26 | a faithful wrapped piece at its position is rendered as `:red[`, the text's own letters there, and `]`, between the renderings of the pieces before and after it |
| Highlighter.HighlightErases | app.py:25-26 | deleting every inserted `:red[` and its `]` from `highlight_bias(text)` gives back `text` |
| Highlighter.HighlightLength | app.py:25-26 | the output is the input's length plus six per match |
| Highlighter.MatchStartsExact | app.py:23-26 | the wrapped positions are exactly the whole-word occurrences of lexicon words, in increasing order |
| Highlighter.HighlightKeepsCase | app.py:23-26 | every wrapped piece is the article's own text at its position, in its original case, and a lexicon word there; and the pieces before it cover exactly as many characters as its position |
| Highlighter.HighlightWrapsInPlace | app.py:23-26 | each match of the pattern is wrapped where it stands: the output is the rendering of the pieces covering the article up to the match, `:red[`, the article's own text of the match, `]`, and the rendering of the pieces after it |
| Highlighter.StartsAreMarks | app.py:26 | every position in the list of wrapped positions is the position of some wrapped piece |
| Highlighter.HighlightWrapsOccurrence | app.py:23-26 | every whole-word occurrence of a lexicon word is wrapped where it stands: a wrapped piece sits at its position, holds the article's own text of that word, and the output is the rendering of the pieces before it, `:red[`, that text, `]`, and the rendering of the pieces after it |
| Highlighter.HighlightUnchanged | app.py:25-26 | the text comes back unchanged if and only if no lexicon word occurs in it as a whole word |
| Highlighter.OnlyWholeTextInOneWord | app.py:23 | in a text of word characters only, the one possible match is the whole text |
| Highlighter.OneWordUnchanged | app.py:23-26 | a single word that is not a lexicon word in any case comes back unchanged, even when it contains one |
| Highlighter.OneWordWrapped | app.py:23-26 | a single word that is a lexicon word in some case becomes `:red[` + the word as written + `]` |
| Highlighter.ExampleInsideLongerWord | app.py:23-26 | `fakeness` and `unbiased` are not highlighted |
| Highlighter.ExampleUnderscoreAndDigit | app.py:23-26 | `fake_news` and `fake2` are not highlighted |
| Highlighter.ExampleCapitals | app.py:23-26 | `FAKE` becomes `:red[FAKE]` |
| Extraction.Decimal | app.py:91 | models `int()` of a digit group: the value of `n` digits is below 10 to the power `n` |
| Extraction.DigitsThenTail | app.py:89 | models `(\d{1,3})` giving back one digit at a time until the tail of the pattern matches; its properties are lemmas `AiDigitsExact` and `CredibilityDigitsExact` |
| Extraction.SpacesThenDigits | app.py:89 | models `\s*` giving back one whitespace character at a time; its properties are lemmas `SpacesGiveBack` and `SpacesWhole` |
| Extraction.MatchAt | app.py:89 | models the pattern tried at one position; its properties are lemmas `MatchAtAfterSpaces`, `AiMatchAtExact` and `CredibilityMatchAtExact` |
| Extraction.SearchFrom | app.py:89 | models `re.search` from position `i` on; its properties are lemmas `FirstFromFirst`, `SearchSkips` and `SearchPastEnd` |
| Extraction.Search | app.py:89 | models `re.search` over the whole reply; its properties are lemmas `AiProbabilityFirst` and `CredibilityScoreFirst` |
| Extraction.AiProbability | app.py:89-91 | models reading the AI-generated likelihood; its properties are lemmas `AiProbabilityFirst`, `AiAtStart` and the examples |
| Extraction.CredibilityScore | app.py:96-97 | models reading the credibility score; its properties are lemmas `CredibilityScoreFirst`, `CredibilityAtStart` and `FakeContentLevel` |
| Extraction.DigitsValue | app.py:91 | the value of at most three digits is at most 999 |
| Extraction.FirstFromFirst | app.py:89 | the first match from `i` on is the outcome at a matching position with no match before it, and there is none exactly when nothing matches |
| Extraction.AiDigitsExact | app.py:89 | with the digits of a run tried longest first, `(\d{1,3})%` succeeds only on the whole run followed by `%` |
| Extraction.CredibilityDigitsExact | app.py:96 | the first try of `(\d{1,3})` decides the credibility match, because nothing has to follow it |
| Extraction.DigitGroupOnSpace | app.py:89 | the digit group never matches starting at whitespace |
| Extraction.SpacesGiveBack | app.py:89 | giving back whitespace never helps when the digit group fails after every shorter run of it |
| Extraction.SpacesWhole | app.py:89 | `\s*` takes the whole run of whitespace, and the digit group is tried right after it |
| Extraction.MatchAtAfterSpaces | app.py:89 | where the label occurs, the match is decided by the digit group after all the whitespace |
| Extraction.AiReading | app.py:89-91 | a likelihood read without backtracking is at most 999 |
| Extraction.CredibilityReading | app.py:96-98 | a credibility score read without backtracking is at most 999 |
| Extraction.AiMatchAtExact | app.py:89 | at every position, the likelihood pattern matches exactly when the label is followed by whitespace, then a run of one to three digits, then `%`; the value is that run |
| Extraction.CredibilityMatchAtExact | app.py:96 | at every position, the credibility pattern matches exactly when the label is followed by whitespace and at least one digit; the value is the first three digits at most |
| Extraction.AiProbabilityFirst | app.py:89-91 | the likelihood is the reading at the first position where there is one, it is missing exactly when there is none, and it is at most 999 |
| Extraction.CredibilityScoreFirst | app.py:96-97 | the credibility score is the reading at the first position where there is one, it is missing exactly when there is none, and it is at most 999 |
| Extraction.FakeContentLevel | app.py:96-98 | the fake-content level exists exactly when the credibility score does, equals `100 - score` without clamping, and lies in -899..100 |
| Extraction.NoLabelAt | app.py:89 | the label is matched character for character, so one differing character rules it out |
| Extraction.SearchSkips | app.py:89 | the search moves past a position where the pattern does not match |
| Extraction.SearchPastEnd | app.py:89 | too near the end of the reply for the label, the search finds nothing |
| Extraction.AiAtStart | app.py:89-91 | a likelihood label at the very start that reads a value is what the search returns |
| Extraction.CredibilityAtStart | app.py:96-97 | a credibility label at the very start that reads a value is what the search returns |
| Extraction.ExampleScore80 | app.py:89-98 | `credibility score: 80` gives score 80, level 20 and no likelihood |
| Extraction.ExampleScore1234 | app.py:96-98 | `credibility score: 1234` gives score 123 and level -23 |
| Extraction.ExampleNoSpace | app.py:96-97 | `credibility score:80` gives score 80, since `\s*` allows no whitespace |
| Extraction.ExampleCapitalised | app.py:96-97 | `Credibility score: 80` gives no score, since the label is case-sensitive |
| Extraction.ExampleLikelihood73 | app.py:89-91 | `AI-generated likelihood: 73%` gives 73 |
| Extraction.FourDigitsNoMatch | app.py:89 | the likelihood label followed by `1234%` does not match there |
| Extraction.ExampleLikelihood1234 | app.py:89-91 | `AI-generated likelihood: 1234%` gives no likelihood |
| Sentiment.Message | app.py:49-52 | models the three lines `detect_bias` returns; its property is lemma `MessagesDistinct` |
| Sentiment.DetectBias | app.py:46-52 | the verdict is negative exactly below -0.3, positive exactly above 0.3, and no strong bias otherwise |
| Sentiment.DetectBiasMonotone | app.py:48-52 | a higher score never gives a verdict further towards the negative |
| Sentiment.DetectBiasSymmetric | app.py:48-52 | negating the score exchanges the negative and positive verdicts |
| Sentiment.DetectBiasBoundaries | app.py:48-52 | scores of exactly -0.3, 0.3 and 0 give no strong bias; -0.31 is negative and 0.31 positive |
| Sentiment.MessagesDistinct | app.py:49-52 | two verdicts give the same message exactly when they are the same verdict, so the line written names the verdict |
| NewsCheck.LeadingSpaces | app.py:82 | the count of leading whitespace stops at the first character that is not whitespace |
| NewsCheck.TrailingSpaces | app.py:82 | the count of trailing whitespace stops at the last character that is not whitespace |
| NewsCheck.Strip | app.py:82 | `strip()` returns the middle of the text, with only whitespace cut away on each side and neither end of the result whitespace |
| NewsCheck.StripEmptyIffBlank | app.py:82 | `strip()` leaves nothing exactly when the text is all whitespace |
| NewsCheck.StripIdempotent | app.py:82 | stripping twice is stripping once |
| NewsCheck.CheckNews | app.py:81-110 | a blank article gives only the warning `EMPTY_INPUT_WARNING`, the text of line 110; any other article gives the reply, both extracted values, the highlighted article and the verdict |
| NewsCheck.BlankArticlesWarned | app.py:81-110 | the empty article and one of spaces, tabs, line breaks and Unicode spaces only get exactly the warning of line 110 |
| NewsCheck.GuardIgnoresSurroundingSpace | app.py:82 | whitespace around the article does not change whether it is analysed |

## Left out

- The Streamlit user interface, file upload and UTF-8 decoding are not modelled: they
  are presentation and I/O.
- `analyze_news` and the Gemini configuration are not modelled: they are a network call
  to an external model. The reply is a parameter of `NewsCheck.CheckNews`, and so is the
  error text the app shows when the call fails.
- The VADER analyser and `nltk.download` are not modelled: they are a foreign library
  with floating-point internals. The compound score is a `real` parameter.
- `detect_bias` compares doubles, and the model compares reals. The two agree because no
  double lies strictly between the double written `0.3` and 3/10.
- The matplotlib charts are not modelled: they only render the two numbers.
- `\w`, `\d` and `re.IGNORECASE` are taken on ASCII only: letters, digits and `_` for
  `\b`, the digits `0`-`9` for `\d`, and `A`-`Z` folded to `a`-`z`. Python also treats
  other Unicode letters and digits as word characters and digits, and folds a few
  non-ASCII characters (the Kelvin sign, for one) to ASCII letters.
- `\s` and `strip()` use the full set of characters `str.isspace()` accepts.
