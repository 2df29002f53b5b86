/**
 * Reading two numbers out of the free-text analysis the AI service returns, each with a
 * regular-expression search: the likelihood is the label `AI-generated likelihood:`,
 * any whitespace, a group of one to three digits and `%`; the credibility score is the
 * label `credibility score:`, any whitespace and a group of one to three digits.
 *
 * A pattern is tried at every position from the left; at one position the greedy
 * `\s*` and `\d{1,3}` are tried longest first and give back one character at a time
 * (backtracking), as a backtracking regular-expression engine does. What the digit group
 * gives at each position, and what the whole pattern gives at each position, are kept in
 * tables, so that the backtracking over whitespace and the search for the first match are
 * proved once for any table. Lemmas then show what the backtracking amounts to: the
 * whitespace run is taken whole, and the digits are the whole run (likelihood, which
 * needs the `%` right after) or its first three (credibility).
 */
module Extraction {
  import opened Wrappers
  import opened CharClass

  const AI_LABEL: string := "AI-generated likelihood:"
  const CREDIBILITY_LABEL: string := "credibility score:"

  /** The most digits `\d{1,3}` takes. */
  const MAX_DIGITS: nat := 3

  /** The two patterns: each a literal label, `\s*`, a group of 1 to 3 digits, and a tail. */
  datatype Pattern = AiLikelihood | Credibility

  function Label(p: Pattern): string {
    match p
    case AiLikelihood => AI_LABEL
    case Credibility => CREDIBILITY_LABEL
  }

  /** The pattern's tail matches at `e`: a literal `%` for the likelihood, nothing for the score. */
  predicate TailAt(p: Pattern, s: string, e: nat)
    requires e <= |s|
  {
    match p
    case AiLikelihood => e < |s| && s[e] == '%'
    case Credibility => true
  }

  predicate AllDigits(d: string) {
    forall k :: 0 <= k < |d| ==> IsDigit(d[k])
  }

  function Min(a: nat, b: nat): nat {
    if a <= b then a else b
  }

  /** The length of the run of whitespace that starts at `i`. */
  function SpaceRun(s: string, i: nat): (n: nat)
    requires i <= |s|
    decreases |s| - i
    ensures i + n <= |s|
  {
    if i < |s| && IsSpace(s[i]) then 1 + SpaceRun(s, i + 1) else 0
  }

  /** The length of the run of digits that starts at `i`. */
  function DigitRun(s: string, i: nat): (n: nat)
    requires i <= |s|
    decreases |s| - i
    ensures i + n <= |s|
  {
    if i < |s| && IsDigit(s[i]) then 1 + DigitRun(s, i + 1) else 0
  }

  /** The run of digits holds digits only. */
  lemma {:induction false} DigitRunIsDigit(s: string, i: nat, k: nat)
    requires i <= |s| && k < DigitRun(s, i)
    decreases k
    ensures IsDigit(s[i + k])
  {
    if k > 0 {
      DigitRunIsDigit(s, i + 1, k - 1);
    }
  }

  function Pow10(n: nat): (r: nat)
    ensures r > 0
  {
    if n == 0 then 1 else 10 * Pow10(n - 1)
  }

  lemma {:induction false} PowMonotone(a: nat, b: nat)
    requires a <= b
    ensures Pow10(a) <= Pow10(b)
  {
    if a < b {
      PowMonotone(a, b - 1);
    }
  }

  /** `int()` of a string of decimal digits. */
  function Decimal(d: string): (v: nat)
    requires AllDigits(d)
    ensures v < Pow10(|d|)
  {
    if d == [] then 0
    else
      var init := d[..|d| - 1];
      assert AllDigits(init) by {
        forall k | 0 <= k < |init| ensures IsDigit(init[k]) { assert init[k] == d[k]; }
      }
      Decimal(init) * 10 + DigitValue(d[|d| - 1])
  }

  /** Every prefix of the run of digits is a string of digits. */
  lemma DigitRunDigits(s: string, j: nat, d: nat)
    requires j <= |s| && d <= DigitRun(s, j)
    ensures AllDigits(s[j..j + d])
  {
    var t := s[j..j + d];
    forall k | 0 <= k < |t| ensures IsDigit(t[k]) {
      DigitRunIsDigit(s, j, k);
      assert t[k] == s[j + k];
    }
  }

  /** At most three digits read as a decimal number stay below a thousand. */
  lemma ThreeDigitsBound(d: string)
    requires AllDigits(d)
    ensures |d| <= MAX_DIGITS ==> Decimal(d) <= 999
  {
    if |d| <= MAX_DIGITS {
      PowMonotone(|d|, MAX_DIGITS);
      assert Pow10(MAX_DIGITS) == 1000;
    }
  }

  /** The value of the first `d` digits of the run of digits at `j`. */
  function DigitsValue(s: string, j: nat, d: nat): (v: nat)
    requires j <= |s| && d <= DigitRun(s, j)
    ensures d <= MAX_DIGITS ==> v <= 999
  {
    DigitRunDigits(s, j, d);
    ThreeDigitsBound(s[j..j + d]);
    Decimal(s[j..j + d])
  }

  /**
   * `(\d{1,3})` and then the tail at `j`, with `d` digits tried first and one given back
   * after each failure.
   */
  function DigitsThenTail(p: Pattern, s: string, j: nat, d: nat): Option<nat>
    requires j <= |s| && d <= DigitRun(s, j)
    decreases d
  {
    if d == 0 then None
    else if TailAt(p, s, j + d) then Some(DigitsValue(s, j, d))
    else DigitsThenTail(p, s, j, d - 1)
  }

  /** The digit group tried at `j` the way the engine tries it: as many digits as it may take, first. */
  function DigitGroup(p: Pattern, s: string, j: nat): Option<nat>
    requires j <= |s|
  {
    DigitsThenTail(p, s, j, Min(MAX_DIGITS, DigitRun(s, j)))
  }

  /** What the digit group gives when tried at each of the positions 0 to `|s|`. */
  function Attempts(p: Pattern, s: string): (g: seq<Option<nat>>)
    ensures |g| == |s| + 1
  {
    seq(|s| + 1, j requires 0 <= j <= |s| => DigitGroup(p, s, j))
  }

  /**
   * `\s*` from `q` and then the digit group, with `k` whitespace characters taken first and
   * one given back after each failure; `g` holds what the digit group gives at each position.
   */
  function SpacesThenDigits(g: seq<Option<nat>>, q: nat, k: nat): Option<nat>
    requires q + k < |g|
    decreases k
  {
    match g[q + k]
    case Some(v) => Some(v)
    case None => if k == 0 then None else SpacesThenDigits(g, q, k - 1)
  }

  /** The label occurs at `i`. */
  predicate LabelAt(p: Pattern, s: string, i: nat) {
    i + |Label(p)| <= |s| && s[i..i + |Label(p)|] == Label(p)
  }

  /** The pattern tried at position `i`: the value of its digit group, if it matches there. */
  function MatchAt(p: Pattern, s: string, i: nat): Option<nat> {
    if LabelAt(p, s, i) then
      var q := i + |Label(p)|;
      SpacesThenDigits(Attempts(p, s), q, SpaceRun(s, q))
    else None
  }

  /** What the pattern gives when tried at each of the positions 0 to `|s|`. */
  function Outcomes(p: Pattern, s: string): (t: seq<Option<nat>>)
    ensures |t| == |s| + 1
  {
    seq(|s| + 1, m requires 0 <= m <= |s| => MatchAt(p, s, m))
  }

  /** The first of the outcomes from `i` on that is a match. */
  function FirstFrom(t: seq<Option<nat>>, i: nat): Option<nat>
    requires i <= |t|
    decreases |t| - i
  {
    if i == |t| then None
    else
      match t[i]
      case Some(v) => Some(v)
      case None => FirstFrom(t, i + 1)
  }

  /**
   * The first match from `i` on is the outcome at a position where there is a match and
   * before which there is none; there is no first match exactly when there is no match.
   */
  lemma {:induction false} FirstFromFirst(t: seq<Option<nat>>, i: nat)
    requires i <= |t|
    decreases |t| - i
    ensures FirstFrom(t, i).Some? ==>
      exists m :: i <= m < |t| && t[m] == FirstFrom(t, i) && forall m' :: i <= m' < m ==> t[m'].None?
    ensures FirstFrom(t, i).None? <==> forall m :: i <= m < |t| ==> t[m].None?
  {
    if i < |t| && t[i].None? {
      FirstFromFirst(t, i + 1);
      if FirstFrom(t, i + 1).Some? {
        var m :| i + 1 <= m < |t| && t[m] == FirstFrom(t, i + 1)
          && forall m' :: i + 1 <= m' < m ==> t[m'].None?;
        assert forall m' :: i <= m' < m ==> t[m'].None?;
      }
    }
  }

  /** `re.search` from position `i`: the value at the first position from `i` on where the pattern matches. */
  function SearchFrom(p: Pattern, s: string, i: nat): Option<nat>
    requires i <= |s| + 1
  {
    FirstFrom(Outcomes(p, s), i)
  }

  function Search(p: Pattern, s: string): Option<nat> {
    SearchFrom(p, s, 0)
  }

  // ---------------------------------------------------------------------------
  // What the backtracking amounts to

  /** Where the digit group starts after the label at `i`: past the whole run of whitespace. */
  function DigitsStart(p: Pattern, s: string, i: nat): (j: nat)
    requires LabelAt(p, s, i)
    ensures j <= |s|
  {
    var q := i + |Label(p)|;
    q + SpaceRun(s, q)
  }

  /**
   * The likelihood pattern read without backtracking: after the label and all the
   * whitespace, the whole run of digits, which must be 1 to 3 long and followed by `%`.
   */
  function AiReading(s: string, i: nat): (r: Option<nat>)
    ensures r.Some? ==> r.value <= 999
  {
    if !LabelAt(AiLikelihood, s, i) then None
    else
      var j := DigitsStart(AiLikelihood, s, i);
      var n := DigitRun(s, j);
      if 1 <= n <= MAX_DIGITS && j + n < |s| && s[j + n] == '%' then Some(DigitsValue(s, j, n)) else None
  }

  /**
   * The credibility pattern read without backtracking: after the label and all the
   * whitespace, the first (at most three) digits of a non-empty run of digits.
   */
  function CredibilityReading(s: string, i: nat): (r: Option<nat>)
    ensures r.Some? ==> r.value <= 999
  {
    if !LabelAt(Credibility, s, i) then None
    else
      var j := DigitsStart(Credibility, s, i);
      var n := DigitRun(s, j);
      if n == 0 then None else Some(DigitsValue(s, j, Min(MAX_DIGITS, n)))
  }

  /** The run of whitespace holds whitespace only. */
  lemma {:induction false} SpaceRunIsSpace(s: string, i: nat, k: nat)
    requires i <= |s| && k < SpaceRun(s, i)
    decreases k
    ensures IsSpace(s[i + k])
  {
    if k > 0 {
      SpaceRunIsSpace(s, i + 1, k - 1);
    }
  }

  /**
   * With `d` digits tried first, `(\d{1,3})%` succeeds only when `d` is the whole run
   * and `%` follows it: giving digits back leaves a digit, never `%`, next.
   */
  lemma {:induction false} AiDigitsExact(s: string, j: nat, d: nat)
    requires j <= |s| && d <= DigitRun(s, j)
    decreases d
    ensures DigitsThenTail(AiLikelihood, s, j, d) ==
      if 1 <= d == DigitRun(s, j) && j + d < |s| && s[j + d] == '%' then Some(DigitsValue(s, j, d)) else None
  {
    if d > 0 {
      if d < DigitRun(s, j) {
        DigitRunIsDigit(s, j, d);
      }
      AiDigitsExact(s, j, d - 1);
    }
  }

  /** The first try of the digit group decides the credibility match: it needs no tail. */
  lemma CredibilityDigitsExact(s: string, j: nat, d: nat)
    requires j <= |s| && d <= DigitRun(s, j)
    ensures DigitsThenTail(Credibility, s, j, d) == if d == 0 then None else Some(DigitsValue(s, j, d))
  {
  }

  /** The digit group cannot start on whitespace. */
  lemma DigitGroupOnSpace(p: Pattern, s: string, j: nat)
    requires j < |s| && IsSpace(s[j])
    ensures DigitGroup(p, s, j) == None
  {
    assert DigitRun(s, j) == 0;
  }

  /**
   * Giving whitespace back never helps when the digit group fails after every shorter
   * run of it: the outcome is the one after all `k` characters.
   */
  lemma {:induction false} SpacesGiveBack(g: seq<Option<nat>>, q: nat, k: nat)
    requires q + k < |g| && forall j :: q <= j < q + k ==> g[j] == None
    decreases k
    ensures SpacesThenDigits(g, q, k) == g[q + k]
  {
    if k > 0 && g[q + k].None? {
      SpacesGiveBack(g, q, k - 1);
    }
  }

  /** `\s*` takes the whole run of whitespace and the digit group is tried right after it. */
  lemma SpacesWhole(p: Pattern, s: string, q: nat)
    requires q <= |s|
    ensures SpacesThenDigits(Attempts(p, s), q, SpaceRun(s, q)) == DigitGroup(p, s, q + SpaceRun(s, q))
  {
    var g, k := Attempts(p, s), SpaceRun(s, q);
    forall j | q <= j < q + k ensures g[j] == None {
      SpaceRunIsSpace(s, q, j - q);
      DigitGroupOnSpace(p, s, j);
    }
    SpacesGiveBack(g, q, k);
  }

  /** Where the label occurs, the match is decided by the digit group right after all the whitespace. */
  lemma MatchAtAfterSpaces(p: Pattern, s: string, i: nat)
    requires LabelAt(p, s, i)
    ensures MatchAt(p, s, i) == DigitGroup(p, s, DigitsStart(p, s, i))
  {
    SpacesWhole(p, s, i + |Label(p)|);
  }

  /** At every position, the likelihood pattern matches exactly as the direct reading says. */
  lemma AiMatchAtExact(s: string, i: nat)
    ensures MatchAt(AiLikelihood, s, i) == AiReading(s, i)
  {
    if LabelAt(AiLikelihood, s, i) {
      var j := DigitsStart(AiLikelihood, s, i);
      MatchAtAfterSpaces(AiLikelihood, s, i);
      AiDigitsExact(s, j, Min(MAX_DIGITS, DigitRun(s, j)));
    }
  }

  /** At every position, the credibility pattern matches exactly as the direct reading says. */
  lemma CredibilityMatchAtExact(s: string, i: nat)
    ensures MatchAt(Credibility, s, i) == CredibilityReading(s, i)
  {
    if LabelAt(Credibility, s, i) {
      var j := DigitsStart(Credibility, s, i);
      var d := Min(MAX_DIGITS, DigitRun(s, j));
      MatchAtAfterSpaces(Credibility, s, i);
      CredibilityDigitsExact(s, j, d);
    }
  }

  /** The AI-generated likelihood the reply states, if the pattern finds one. */
  function AiProbability(reply: string): Option<nat> {
    Search(AiLikelihood, reply)
  }

  /** The credibility score the reply states, if the pattern finds one. */
  function CredibilityScore(reply: string): Option<nat> {
    Search(Credibility, reply)
  }

  // ---------------------------------------------------------------------------
  // The first match, in terms of the direct readings

  /**
   * The likelihood is the direct reading at the first position where there is one, and
   * it is missing exactly when there is none anywhere in the reply; it is at most 999.
   */
  lemma AiProbabilityFirst(reply: string)
    ensures AiProbability(reply).Some? ==>
      exists m :: 0 <= m <= |reply| && AiReading(reply, m) == AiProbability(reply)
        && forall m' :: 0 <= m' < m ==> AiReading(reply, m').None?
    ensures AiProbability(reply).None? <==> forall m :: 0 <= m <= |reply| ==> AiReading(reply, m).None?
    ensures AiProbability(reply).Some? ==> AiProbability(reply).value <= 999
  {
    var t := Outcomes(AiLikelihood, reply);
    forall m | 0 <= m < |t| ensures t[m] == AiReading(reply, m) {
      AiMatchAtExact(reply, m);
    }
    FirstFromFirst(t, 0);
  }

  /**
   * The credibility score is the direct reading at the first position where there is one,
   * and it is missing exactly when there is none anywhere in the reply; it is at most 999.
   */
  lemma CredibilityScoreFirst(reply: string)
    ensures CredibilityScore(reply).Some? ==>
      exists m :: 0 <= m <= |reply| && CredibilityReading(reply, m) == CredibilityScore(reply)
        && forall m' :: 0 <= m' < m ==> CredibilityReading(reply, m').None?
    ensures CredibilityScore(reply).None? <==> forall m :: 0 <= m <= |reply| ==> CredibilityReading(reply, m).None?
    ensures CredibilityScore(reply).Some? ==> CredibilityScore(reply).value <= 999
  {
    var t := Outcomes(Credibility, reply);
    forall m | 0 <= m < |t| ensures t[m] == CredibilityReading(reply, m) {
      CredibilityMatchAtExact(reply, m);
    }
    FirstFromFirst(t, 0);
  }

  /** The fake-content level: 100 minus the credibility score, when there is one; never clamped. */
  function FakeContentLevel(reply: string): (r: Option<int>)
    ensures r.Some? <==> CredibilityScore(reply).Some?
    ensures r.Some? ==> r.value == 100 - CredibilityScore(reply).value && -899 <= r.value <= 100
  {
    CredibilityScoreFirst(reply);
    match CredibilityScore(reply)
    case Some(c) => Some(100 - c)
    case None => None
  }

  /** The label cannot occur at `m` when its `k`-th character is not at `m + k`. */
  lemma NoLabelAt(p: Pattern, s: string, m: nat, k: nat)
    requires k < |Label(p)| && m + k < |s| && s[m + k] != Label(p)[k]
    ensures !LabelAt(p, s, m)
  {
  }

  /** The search moves past a position where the pattern does not match. */
  lemma SearchSkips(p: Pattern, s: string, i: nat)
    requires i <= |s| && MatchAt(p, s, i) == None
    ensures SearchFrom(p, s, i) == SearchFrom(p, s, i + 1)
  {
    assert Outcomes(p, s)[i] == None;
  }

  /** Too near the end for the label, the search finds nothing. */
  lemma {:induction false} SearchPastEnd(p: Pattern, s: string, i: nat)
    requires i <= |s| + 1 && |s| < i + |Label(p)|
    decreases |s| + 1 - i
    ensures SearchFrom(p, s, i) == None
  {
    if i <= |s| {
      SearchSkips(p, s, i);
      SearchPastEnd(p, s, i + 1);
    }
  }

  /** A reply whose likelihood label at the very start reads a value is read there. */
  lemma AiAtStart(s: string)
    requires AiReading(s, 0).Some?
    ensures AiProbability(s) == AiReading(s, 0)
  {
    AiMatchAtExact(s, 0);
    assert Outcomes(AiLikelihood, s)[0] == MatchAt(AiLikelihood, s, 0);
  }

  /** A reply whose credibility label at the very start reads a value is read there. */
  lemma CredibilityAtStart(s: string)
    requires CredibilityReading(s, 0).Some?
    ensures CredibilityScore(s) == CredibilityReading(s, 0)
  {
    CredibilityMatchAtExact(s, 0);
    assert Outcomes(Credibility, s)[0] == MatchAt(Credibility, s, 0);
  }

  // ---------------------------------------------------------------------------
  // Worked replies

  lemma ExampleScore80(s: string)
    requires s == "credibility score: 80"
    ensures CredibilityScore(s) == Some(80)
    ensures FakeContentLevel(s) == Some(20)
    ensures AiProbability(s) == None
  {
    assert LabelAt(Credibility, s, 0) by { assert s[0..18] == CREDIBILITY_LABEL; }
    assert DigitsStart(Credibility, s, 0) == 19 by {
      assert SpaceRun(s, 19) == 0;
      assert SpaceRun(s, 18) == 1;
    }
    assert DigitRun(s, 19) == 2 by {
      assert DigitRun(s, 21) == 0;
      assert DigitRun(s, 20) == 1;
    }
    assert CredibilityReading(s, 0) == Some(80) by {
      assert s[19..21] == "80";
      assert Decimal("80") == 80 by { assert Decimal("8") == 8; }
    }
    CredibilityAtStart(s);
    SearchPastEnd(AiLikelihood, s, 0);
  }

  /** Four digits: the score keeps the first three, and the level drops below zero. */
  lemma ExampleScore1234(s: string)
    requires s == "credibility score: 1234"
    ensures CredibilityScore(s) == Some(123)
    ensures FakeContentLevel(s) == Some(-23)
  {
    assert LabelAt(Credibility, s, 0) by { assert s[0..18] == CREDIBILITY_LABEL; }
    assert DigitsStart(Credibility, s, 0) == 19 by {
      assert SpaceRun(s, 19) == 0;
      assert SpaceRun(s, 18) == 1;
    }
    assert DigitRun(s, 19) == 4 by {
      assert DigitRun(s, 23) == 0;
      assert DigitRun(s, 22) == 1;
      assert DigitRun(s, 21) == 2;
      assert DigitRun(s, 20) == 3;
    }
    assert CredibilityReading(s, 0) == Some(123) by {
      assert s[19..22] == "123";
      assert Decimal("123") == 123 by { assert Decimal("1") == 1; assert Decimal("12") == 12; }
    }
    CredibilityAtStart(s);
  }

  /** `\s*` also accepts no whitespace at all. */
  lemma ExampleNoSpace(s: string)
    requires s == "credibility score:80"
    ensures CredibilityScore(s) == Some(80)
  {
    assert LabelAt(Credibility, s, 0) by { assert s[0..18] == CREDIBILITY_LABEL; }
    assert DigitsStart(Credibility, s, 0) == 18 by {
      assert SpaceRun(s, 18) == 0;
    }
    assert DigitRun(s, 18) == 2 by {
      assert DigitRun(s, 20) == 0;
      assert DigitRun(s, 19) == 1;
    }
    assert CredibilityReading(s, 0) == Some(80) by {
      assert s[18..20] == "80";
      assert Decimal("80") == 80 by { assert Decimal("8") == 8; }
    }
    CredibilityAtStart(s);
  }

  /** The label is case-sensitive. */
  lemma ExampleCapitalised(s: string)
    requires s == "Credibility score: 80"
    ensures CredibilityScore(s) == None
  {
    assert SearchFrom(Credibility, s, 0) == SearchFrom(Credibility, s, 4) by {
      assert s[0] == 'C' && s[1] == 'r' && s[2] == 'e' && s[3] == 'd';
      NoLabelAt(Credibility, s, 0, 0);
      SearchSkips(Credibility, s, 0);
      NoLabelAt(Credibility, s, 1, 0);
      SearchSkips(Credibility, s, 1);
      NoLabelAt(Credibility, s, 2, 0);
      SearchSkips(Credibility, s, 2);
      NoLabelAt(Credibility, s, 3, 0);
      SearchSkips(Credibility, s, 3);
    }
    SearchPastEnd(Credibility, s, 4);
  }

  lemma ExampleLikelihood73(s: string)
    requires s == "AI-generated likelihood: 73%"
    ensures AiProbability(s) == Some(73)
  {
    assert LabelAt(AiLikelihood, s, 0) by { assert s[0..24] == AI_LABEL; }
    assert DigitsStart(AiLikelihood, s, 0) == 25 by {
      assert SpaceRun(s, 25) == 0;
      assert SpaceRun(s, 24) == 1;
    }
    assert DigitRun(s, 25) == 2 by {
      assert DigitRun(s, 27) == 0;
      assert DigitRun(s, 26) == 1;
    }
    assert AiReading(s, 0) == Some(73) by {
      assert s[27] == '%';
      assert s[25..27] == "73";
      assert Decimal("73") == 73 by { assert Decimal("7") == 7; }
    }
    AiAtStart(s);
  }

  /** Four digits before `%`: `\d{1,3}%` cannot match, so there is no likelihood. */
  lemma ExampleLikelihood1234(s: string)
    requires s == "AI-generated likelihood: 1234%"
    ensures AiProbability(s) == None
  {
    assert SearchFrom(AiLikelihood, s, 0) == SearchFrom(AiLikelihood, s, 1) by {
      FourDigitsNoMatch(s);
      SearchSkips(AiLikelihood, s, 0);
    }
    assert SearchFrom(AiLikelihood, s, 1) == SearchFrom(AiLikelihood, s, 7) by {
      NoLabelAt(AiLikelihood, s, 1, 23);
      SearchSkips(AiLikelihood, s, 1);
      NoLabelAt(AiLikelihood, s, 2, 23);
      SearchSkips(AiLikelihood, s, 2);
      NoLabelAt(AiLikelihood, s, 3, 23);
      SearchSkips(AiLikelihood, s, 3);
      NoLabelAt(AiLikelihood, s, 4, 23);
      SearchSkips(AiLikelihood, s, 4);
      NoLabelAt(AiLikelihood, s, 5, 23);
      SearchSkips(AiLikelihood, s, 5);
      NoLabelAt(AiLikelihood, s, 6, 23);
      SearchSkips(AiLikelihood, s, 6);
    }
    SearchPastEnd(AiLikelihood, s, 7);
  }

  /** The label at the start of the reply is followed by four digits, so it does not match there. */
  lemma FourDigitsNoMatch(s: string)
    requires s == "AI-generated likelihood: 1234%"
    ensures MatchAt(AiLikelihood, s, 0) == None
  {
    assert AiReading(s, 0) == None by {
      if LabelAt(AiLikelihood, s, 0) {
        assert DigitsStart(AiLikelihood, s, 0) == 25 by {
          assert SpaceRun(s, 25) == 0;
          assert SpaceRun(s, 24) == 1;
        }
        assert DigitRun(s, 25) == 4 by {
          assert DigitRun(s, 29) == 0;
          assert DigitRun(s, 28) == 1;
          assert DigitRun(s, 27) == 2;
          assert DigitRun(s, 26) == 3;
        }
      }
    }
    AiMatchAtExact(s, 0);
  }
}
