/**
 * What the "Check News" button does with the article text: the `strip()` guard, and,
 * when the article is not blank, the report assembled from the AI service's reply, the
 * highlighted article and the sentiment verdict.
 *
 * The reply of the AI service and the compound score of the sentiment analyser are
 * parameters: they stand for the results of those calls on the same article.
 */
module NewsCheck {
  import opened Wrappers
  import opened CharClass
  import Extraction
  import Highlighter
  import Sentiment

  /** The warning the app shows instead of a report. */
  const EMPTY_INPUT_WARNING: string := "\U{26A0}\U{FE0F} Please enter some text to analyze."

  /** Every character of `s` is whitespace (the empty string included). */
  predicate AllSpace(s: string) {
    forall k :: 0 <= k < |s| ==> IsSpace(s[k])
  }

  /** The number of whitespace characters `s` starts with. */
  function LeadingSpaces(s: string): (n: nat)
    ensures n <= |s|
    ensures AllSpace(s[..n])
    ensures n < |s| ==> !IsSpace(s[n])
  {
    if s == [] || !IsSpace(s[0]) then 0
    else
      var n := 1 + LeadingSpaces(s[1..]);
      assert s[..n] == [s[0]] + s[1..][..n - 1];
      n
  }

  /** The number of whitespace characters `s` ends with. */
  function TrailingSpaces(s: string): (n: nat)
    ensures n <= |s|
    ensures AllSpace(s[|s| - n..])
    ensures n < |s| ==> !IsSpace(s[|s| - n - 1])
  {
    if s == [] || !IsSpace(s[|s| - 1]) then 0
    else
      var init := s[..|s| - 1];
      var n := 1 + TrailingSpaces(init);
      assert s[|s| - n..] == init[|init| - (n - 1)..] + [s[|s| - 1]];
      n
  }

  /** `str.strip()`: the text without its leading and trailing whitespace. */
  function Strip(s: string): (r: string)
    ensures LeadingSpaces(s) + |r| <= |s|
    ensures r == s[LeadingSpaces(s)..LeadingSpaces(s) + |r|]
    ensures AllSpace(s[LeadingSpaces(s) + |r|..])
    ensures r == [] || (!IsSpace(r[0]) && !IsSpace(r[|r| - 1]))
  {
    var t := s[LeadingSpaces(s)..];
    t[..|t| - TrailingSpaces(t)]
  }

  /** `strip()` leaves nothing exactly when the text is blank. */
  lemma StripEmptyIffBlank(s: string)
    ensures Strip(s) == [] <==> AllSpace(s)
  {
    var a := LeadingSpaces(s);
    if Strip(s) == [] {
      assert a == |s|;
      forall k | 0 <= k < |s| ensures IsSpace(s[k]) {
        assert s[k] == s[..a][k];
      }
    } else {
      assert !IsSpace(Strip(s)[0]);
      assert Strip(s)[0] == s[a];
    }
  }

  /** Stripping twice is stripping once. */
  lemma StripIdempotent(s: string)
    ensures Strip(Strip(s)) == Strip(s)
  {
    var r := Strip(s);
    if r != [] {
      assert LeadingSpaces(r) == 0;
      assert TrailingSpaces(r) == 0;
    }
  }

  /**
   * What the app shows for one press of the button: either only a warning, or the
   * analysis.
   */
  datatype Report =
    | Warning(message: string)
    | Analysis(
        reply: string,
        aiProbability: Option<nat>,
        fakeContentLevel: Option<int>,
        highlighted: string,
        verdict: Sentiment.Verdict)

  /**
   * The button handler: a blank article gives the warning and nothing else; any other
   * article gives the reply, the two numbers read from it, the highlighted article and
   * the verdict on its compound score.
   */
  function CheckNews(newsText: string, reply: string, compound: real): (r: Report)
    ensures r.Warning? <==> AllSpace(newsText)
    ensures r.Warning? ==> r.message == EMPTY_INPUT_WARNING
    ensures r.Analysis? ==>
      && r.reply == reply
      && r.aiProbability == Extraction.AiProbability(reply)
      && r.fakeContentLevel == Extraction.FakeContentLevel(reply)
      && r.highlighted == Highlighter.Highlight(newsText)
      && r.verdict == Sentiment.DetectBias(compound)
  {
    StripEmptyIffBlank(newsText);
    if Strip(newsText) != [] then
      Analysis(
        reply,
        Extraction.AiProbability(reply),
        Extraction.FakeContentLevel(reply),
        Highlighter.Highlight(newsText),
        Sentiment.DetectBias(compound))
    else Warning(EMPTY_INPUT_WARNING)
  }

  /**
   * The empty article and an article of spaces, tabs, line breaks and Unicode spaces only
   * get the warning.
   */
  lemma BlankArticlesWarned(reply: string, compound: real)
    ensures CheckNews("", reply, compound) == Warning(EMPTY_INPUT_WARNING)
    ensures CheckNews(" \t\r\n\U{A0}\U{3000}", reply, compound) == Warning(EMPTY_INPUT_WARNING)
  {
    assert AllSpace(" \t\r\n\U{A0}\U{3000}");
  }

  /** Whitespace around the article does not change whether it is analysed. */
  lemma GuardIgnoresSurroundingSpace(newsText: string, reply: string, compound: real)
    ensures CheckNews(newsText, reply, compound).Warning? == CheckNews(Strip(newsText), reply, compound).Warning?
  {
    StripEmptyIffBlank(newsText);
    StripEmptyIffBlank(Strip(newsText));
    StripIdempotent(newsText);
  }
}
