/**
 * The bias-word highlighter: the regular expression `\b(shocking|...|propaganda)\b`
 * compiled with `re.IGNORECASE`, substituted over the article text so that every
 * match becomes `:red[` + the matched text + `]`.
 *
 * The substitution is modelled as an explicit left-to-right scan that cuts the text
 * into pieces (a character kept as it is, or a match that is wrapped) and a rendering
 * of those pieces. The scan is written over a table of what the pattern finds at each
 * position, so that its properties are proved once for any table that fits the text and
 * then specialised to the table of the bias-word pattern.
 */
module Highlighter {
  import opened Wrappers
  import opened CharClass

  /** The lexicon, in the order the alternation tries it. */
  const BIAS_WORDS: seq<string> :=
    ["shocking", "disaster", "corrupt", "manipulative", "scandal", "biased", "fake", "propaganda"]

  const OPEN_MARK: string := ":red["
  const CLOSE_MARK: string := "]"

  /** Every lexicon word is a non-empty run of lower-case ASCII letters. */
  predicate IsLexiconWord(w: string) {
    |w| > 0 && forall k :: 0 <= k < |w| ==> IsAsciiLower(w[k])
  }

  lemma LexiconWellFormed()
    ensures forall j :: 0 <= j < |BIAS_WORDS| ==> IsLexiconWord(BIAS_WORDS[j])
  {
    forall j | 0 <= j < |BIAS_WORDS| ensures IsLexiconWord(BIAS_WORDS[j]) {
      assert BIAS_WORDS[j] in BIAS_WORDS;
    }
  }

  /** Python's `\b` between positions `i - 1` and `i`; the ends of the text count as non-word. */
  predicate Boundary(s: string, i: nat)
    requires i <= |s|
  {
    (i > 0 && IsWordChar(s[i - 1])) != (i < |s| && IsWordChar(s[i]))
  }

  /** `a` equals `b` once both are case-folded. */
  predicate FoldEq(a: string, b: string) {
    |a| == |b| && forall k :: 0 <= k < |a| ==> Lower(a[k]) == Lower(b[k])
  }

  /** The pattern matches the (non-empty) lexicon word `w` at position `i` of `s`. */
  predicate WordAt(s: string, i: nat, w: string) {
    && 0 < |w|
    && i + |w| <= |s|
    && Boundary(s, i)
    && FoldEq(s[i..i + |w|], w)
    && Boundary(s, i + |w|)
  }

  /** Some lexicon word occurs at `i` as a whole word, in any letter case. */
  ghost predicate WholeWordAt(s: string, i: nat) {
    exists j :: 0 <= j < |BIAS_WORDS| && WordAt(s, i, BIAS_WORDS[j])
  }

  /**
   * The alternation tried at position `i`, from the `k`-th word on: the length of the
   * first word that matches there, if any.
   */
  function MatchFrom(s: string, i: nat, k: nat): (r: Option<nat>)
    requires i <= |s| && k <= |BIAS_WORDS|
    decreases |BIAS_WORDS| - k
    ensures r.Some? ==> 0 < r.value && i + r.value <= |s|
  {
    if k == |BIAS_WORDS| then None
    else if WordAt(s, i, BIAS_WORDS[k]) then Some(|BIAS_WORDS[k]|)
    else MatchFrom(s, i, k + 1)
  }

  /** The alternation finds a match exactly when one of the words it tries matches, and
      the length it reports is that word's. */
  lemma {:induction false} MatchFromExact(s: string, i: nat, k: nat)
    requires i <= |s| && k <= |BIAS_WORDS|
    decreases |BIAS_WORDS| - k
    ensures MatchFrom(s, i, k).None? <==> forall j :: k <= j < |BIAS_WORDS| ==> !WordAt(s, i, BIAS_WORDS[j])
    ensures MatchFrom(s, i, k).Some? ==>
      exists j :: k <= j < |BIAS_WORDS| && WordAt(s, i, BIAS_WORDS[j]) && MatchFrom(s, i, k).value == |BIAS_WORDS[j]|
  {
    if k < |BIAS_WORDS| && !WordAt(s, i, BIAS_WORDS[k]) {
      MatchFromExact(s, i, k + 1);
    }
  }

  /** The pattern tried at position `i`: the length of the match there, if any. */
  function MatchAt(s: string, i: nat): Option<nat>
    requires i <= |s|
  {
    MatchFrom(s, i, 0)
  }

  /** A match at `i` is a whole-word occurrence of a lexicon word, and its length is that word's. */
  lemma MatchAtExact(s: string, i: nat)
    requires i <= |s|
    ensures MatchAt(s, i).Some? <==> WholeWordAt(s, i)
    ensures MatchAt(s, i).Some? ==>
      exists j :: 0 <= j < |BIAS_WORDS| && WordAt(s, i, BIAS_WORDS[j]) && MatchAt(s, i).value == |BIAS_WORDS[j]|
  {
    MatchFromExact(s, i, 0);
  }

  // ---------------------------------------------------------------------------
  // The scan of `re.sub`, over a table of what the pattern finds at each position

  /** What the scan cuts the text into. */
  datatype Piece = Keep(c: char) | Mark(at: nat, text: string)

  /** `t[i]` is the length of the match the pattern finds at `i` of `s`, if any. */
  predicate Fits(s: string, t: seq<Option<nat>>) {
    && |t| == |s|
    && forall i :: 0 <= i < |t| && t[i].Some? ==> 0 < t[i].value && i + t[i].value <= |s|
  }

  /** No match of the table starts strictly inside another. */
  predicate NoNested(t: seq<Option<nat>>) {
    forall j, k :: 0 <= j < k < |t| && t[j].Some? && k < j + t[j].value ==> t[k].None?
  }

  /** The length of the text the scan consumes at `i`: a whole match, or one character. */
  function Step(s: string, t: seq<Option<nat>>, i: nat): (n: nat)
    requires Fits(s, t) && i < |s|
    ensures 0 < n && i + n <= |s|
  {
    match t[i]
    case Some(n) => n
    case None => 1
  }

  /** The piece the scan produces at `i`. */
  function PieceOf(s: string, t: seq<Option<nat>>, i: nat): Piece
    requires Fits(s, t) && i < |s|
  {
    match t[i]
    case Some(n) => Mark(i, s[i..i + n])
    case None => Keep(s[i])
  }

  /** The scan `re.sub` performs, from position `i` to the end of `s`. */
  function ScanWith(s: string, t: seq<Option<nat>>, i: nat): seq<Piece>
    requires Fits(s, t) && i <= |s|
    decreases |s| - i
  {
    if i == |s| then [] else [PieceOf(s, t, i)] + ScanWith(s, t, i + Step(s, t, i))
  }

  function RenderPiece(p: Piece): string {
    match p
    case Keep(c) => [c]
    case Mark(_, t) => OPEN_MARK + t + CLOSE_MARK
  }

  /** The text the pieces are printed as. */
  function Render(ps: seq<Piece>): string {
    if ps == [] then [] else RenderPiece(ps[0]) + Render(ps[1..])
  }

  function ErasePiece(p: Piece): string {
    match p
    case Keep(c) => [c]
    case Mark(_, t) => t
  }

  /** The pieces with every inserted `:red[` and its closing `]` deleted. */
  function Erase(ps: seq<Piece>): string {
    if ps == [] then [] else ErasePiece(ps[0]) + Erase(ps[1..])
  }

  function StartOf(p: Piece): seq<nat> {
    match p
    case Keep(_) => []
    case Mark(at, _) => [at]
  }

  /** The positions at which the pieces wrap a match, in order. */
  function Starts(ps: seq<Piece>): seq<nat> {
    if ps == [] then [] else StartOf(ps[0]) + Starts(ps[1..])
  }

  /** A wrapped piece is the text the table reports at its position. */
  predicate MarkFits(s: string, t: seq<Option<nat>>, p: Piece) {
    p.Mark? ==>
      && p.at < |t|
      && t[p.at] == Some(|p.text|)
      && p.at + |p.text| <= |s|
      && p.text == s[p.at..p.at + |p.text|]
  }

  // ---------------------------------------------------------------------------
  // Properties of the scan, for any table that fits the text

  lemma EraseCons(p: Piece, ps: seq<Piece>)
    ensures Erase([p] + ps) == ErasePiece(p) + Erase(ps)
  {
    assert ([p] + ps)[1..] == ps;
  }

  lemma StartsCons(p: Piece, ps: seq<Piece>)
    ensures Starts([p] + ps) == StartOf(p) + Starts(ps)
  {
    assert ([p] + ps)[1..] == ps;
  }

  /** Every position in the list of wrapped positions is the position of a wrapped piece. */
  lemma {:induction false} StartsAreMarks(ps: seq<Piece>, x: nat)
    requires x in Starts(ps)
    ensures exists m :: 0 <= m < |ps| && ps[m].Mark? && ps[m].at == x
    decreases |ps|
  {
    if !(ps[0].Mark? && ps[0].at == x) {
      assert x in Starts(ps[1..]);
      StartsAreMarks(ps[1..], x);
      var m :| 0 <= m < |ps[1..]| && ps[1..][m].Mark? && ps[1..][m].at == x;
      assert ps[m + 1] == ps[1..][m];
    }
  }

  /** A piece covers exactly the text the scan consumes for it. */
  lemma PieceOfErases(s: string, t: seq<Option<nat>>, i: nat)
    requires Fits(s, t) && i < |s|
    ensures ErasePiece(PieceOf(s, t, i)) == s[i..i + Step(s, t, i)]
  {
    if t[i].None? {
      assert s[i..i + 1] == [s[i]];
    }
  }

  /** One step of the scan: the text of its first piece, then the rest of the scan. */
  lemma EraseStep(s: string, t: seq<Option<nat>>, i: nat)
    requires Fits(s, t) && i < |s|
    ensures Erase(ScanWith(s, t, i)) == s[i..i + Step(s, t, i)] + Erase(ScanWith(s, t, i + Step(s, t, i)))
  {
    EraseCons(PieceOf(s, t, i), ScanWith(s, t, i + Step(s, t, i)));
    PieceOfErases(s, t, i);
  }

  /** Text that covers `s[i..j]` and then `s[j..]` covers `s[i..]`. */
  lemma SplitSuffix(s: string, i: nat, j: nat, e: string, e': string)
    requires i <= j <= |s| && e == s[i..j] + e' && e' == s[j..]
    ensures e == s[i..]
  {
    assert s[i..] == s[i..j] + s[j..];
  }

  /** Deleting the markers from the scan of `s[i..]` gives back `s[i..]`. */
  lemma {:induction false} ScanErases(s: string, t: seq<Option<nat>>, i: nat)
    requires Fits(s, t) && i <= |s|
    ensures Erase(ScanWith(s, t, i)) == s[i..]
    decreases |s| - i
  {
    if i < |s| {
      var n := Step(s, t, i);
      var e, e' := Erase(ScanWith(s, t, i)), Erase(ScanWith(s, t, i + n));
      assert e == s[i..i + n] + e' by { EraseStep(s, t, i); }
      assert e' == s[i + n..] by { ScanErases(s, t, i + n); }
      SplitSuffix(s, i, i + n, e, e');
    } else {
      assert ScanWith(s, t, i) == [];
    }
  }

  /** Rendering adds the six marker characters once per match and nothing else. */
  lemma {:induction false} RenderLength(ps: seq<Piece>)
    ensures |Render(ps)| == |Erase(ps)| + 6 * |Starts(ps)|
  {
    if ps != [] {
      RenderLength(ps[1..]);
    }
  }

  /** Without a match, rendering and erasing agree. */
  lemma {:induction false} RenderWithoutMarks(ps: seq<Piece>)
    requires Starts(ps) == []
    ensures Render(ps) == Erase(ps)
  {
    if ps != [] {
      assert ps[0].Keep?;
      RenderWithoutMarks(ps[1..]);
    }
  }

  /** `xs` is strictly increasing and every element of it is at least `lo`. */
  predicate AscendingFrom(xs: seq<nat>, lo: nat) {
    xs == [] || (lo <= xs[0] && AscendingFrom(xs[1..], xs[0] + 1))
  }

  lemma AscendingCons(head: seq<nat>, rest: seq<nat>, i: nat, n: nat)
    requires head == [] || head == [i]
    requires 0 < n && AscendingFrom(rest, i + n)
    ensures AscendingFrom(head + rest, i)
  {
    if head == [] {
      assert head + rest == rest;
    } else {
      assert (head + rest)[1..] == rest;
    }
  }

  /** The scan of `s[i..]` wraps positions from `i` on, in strictly increasing order. */
  lemma {:induction false} ScanStartsAscending(s: string, t: seq<Option<nat>>, i: nat)
    requires Fits(s, t) && i <= |s|
    ensures AscendingFrom(Starts(ScanWith(s, t, i)), i)
    decreases |s| - i
  {
    if i < |s| {
      var n := Step(s, t, i);
      var head, rest := StartOf(PieceOf(s, t, i)), Starts(ScanWith(s, t, i + n));
      StartsCons(PieceOf(s, t, i), ScanWith(s, t, i + n));
      ScanStartsAscending(s, t, i + n);
      AscendingCons(head, rest, i, n);
    }
  }

  /** Every position the scan of `s[i..]` wraps is one where the table reports a match. */
  lemma {:induction false} ScanStartsSound(s: string, t: seq<Option<nat>>, i: nat)
    requires Fits(s, t) && i <= |s|
    ensures forall m :: 0 <= m < |Starts(ScanWith(s, t, i))| ==>
      i <= Starts(ScanWith(s, t, i))[m] < |s| && t[Starts(ScanWith(s, t, i))[m]].Some?
    decreases |s| - i
  {
    if i < |s| {
      var n := Step(s, t, i);
      var head, rest := StartOf(PieceOf(s, t, i)), Starts(ScanWith(s, t, i + n));
      StartsCons(PieceOf(s, t, i), ScanWith(s, t, i + n));
      ScanStartsSound(s, t, i + n);
      forall m | 0 <= m < |head + rest| ensures i <= (head + rest)[m] < |s| && t[(head + rest)[m]].Some? {
        if m >= |head| {
          assert (head + rest)[m] == rest[m - |head|];
        }
      }
    }
  }

  /**
   * When no match of the table starts inside another, every position from `i` on where
   * the table reports a match is wrapped by the scan of `s[i..]`.
   */
  lemma {:induction false} ScanStartsComplete(s: string, t: seq<Option<nat>>, i: nat)
    requires Fits(s, t) && NoNested(t) && i <= |s|
    ensures forall j :: i <= j < |s| && t[j].Some? ==> j in Starts(ScanWith(s, t, i))
    decreases |s| - i
  {
    if i < |s| {
      var n := Step(s, t, i);
      var head, rest := StartOf(PieceOf(s, t, i)), Starts(ScanWith(s, t, i + n));
      StartsCons(PieceOf(s, t, i), ScanWith(s, t, i + n));
      ScanStartsComplete(s, t, i + n);
      forall j | i <= j < |s| && t[j].Some? ensures j in head + rest {
        if j == i {
          assert head == [i];
        } else if j >= i + n {
          assert j in rest;
        }
      }
    }
  }

  /** Every piece the scan of `s[i..]` wraps is the text the table reports at its position. */
  lemma {:induction false} ScanMarksFit(s: string, t: seq<Option<nat>>, i: nat)
    requires Fits(s, t) && i <= |s|
    ensures forall m :: 0 <= m < |ScanWith(s, t, i)| ==> MarkFits(s, t, ScanWith(s, t, i)[m])
    decreases |s| - i
  {
    if i < |s| {
      var n := Step(s, t, i);
      var rest := ScanWith(s, t, i + n);
      ScanMarksFit(s, t, i + n);
      forall m | 0 <= m < |ScanWith(s, t, i)| ensures MarkFits(s, t, ScanWith(s, t, i)[m]) {
        if m > 0 {
          assert ScanWith(s, t, i)[m] == rest[m - 1];
        }
      }
    }
  }

  /**
   * Every wrapped piece of the scan of `s[i..]` stands where its match is: the pieces
   * before it cover the text from `i` up to the match's position.
   */
  lemma {:induction false} ScanAligned(s: string, t: seq<Option<nat>>, i: nat)
    requires Fits(s, t) && i <= |s|
    ensures forall m :: 0 <= m < |ScanWith(s, t, i)| && ScanWith(s, t, i)[m].Mark? ==>
      i + |Erase(ScanWith(s, t, i)[..m])| == ScanWith(s, t, i)[m].at
    decreases |s| - i
  {
    if i < |s| {
      var n := Step(s, t, i);
      var p, rest := PieceOf(s, t, i), ScanWith(s, t, i + n);
      var ps := ScanWith(s, t, i);
      assert ps == [p] + rest;
      ScanAligned(s, t, i + n);
      PieceOfErases(s, t, i);
      forall m | 0 <= m < |ps| && ps[m].Mark? ensures i + |Erase(ps[..m])| == ps[m].at {
        if m == 0 {
          assert ps[..0] == [];
        } else {
          assert ps[..m] == [p] + rest[..m - 1];
          EraseCons(p, rest[..m - 1]);
          assert ps[m] == rest[m - 1];
        }
      }
    }
  }

  /** Erasing a concatenation erases each part. */
  lemma {:induction false} EraseAppend(a: seq<Piece>, b: seq<Piece>)
    ensures Erase(a + b) == Erase(a) + Erase(b)
  {
    if a != [] {
      assert (a + b)[1..] == a[1..] + b;
      EraseAppend(a[1..], b);
    } else {
      assert a + b == b;
    }
  }

  /** Rendering a concatenation renders each part. */
  lemma {:induction false} RenderAppend(a: seq<Piece>, b: seq<Piece>)
    ensures Render(a + b) == Render(a) + Render(b)
  {
    if a != [] {
      assert (a + b)[1..] == a[1..] + b;
      RenderAppend(a[1..], b);
    } else {
      assert a + b == b;
    }
  }

  // ---------------------------------------------------------------------------
  // The table of the bias-word pattern

  /** A character that folds to a lower-case letter is a word character. */
  lemma FoldedLetterIsWordChar(c: char, l: char)
    requires IsAsciiLower(l) && Lower(c) == l
    ensures IsWordChar(c)
  {
  }

  /** Every character of a match is a word character. */
  lemma MatchIsWord(s: string, i: nat, w: string, m: nat)
    requires IsLexiconWord(w) && WordAt(s, i, w) && i <= m < i + |w|
    ensures IsWordChar(s[m])
  {
    assert Lower(s[i..i + |w|][m - i]) == Lower(w[m - i]);
    FoldedLetterIsWordChar(s[m], w[m - i]);
  }

  /**
   * A match is never part of a longer word: the characters on either side of it, if any,
   * are not letters, digits or `_`.
   */
  lemma MatchFlanked(s: string, i: nat, w: string)
    requires IsLexiconWord(w) && WordAt(s, i, w)
    ensures i == 0 || !IsWordChar(s[i - 1])
    ensures i + |w| == |s| || !IsWordChar(s[i + |w|])
  {
    MatchIsWord(s, i, w, i);
    MatchIsWord(s, i, w, i + |w| - 1);
  }

  /** Strictly inside a match there is no word boundary. */
  lemma InsideMatch(s: string, i: nat, w: string, k: nat)
    requires IsLexiconWord(w) && WordAt(s, i, w) && 0 < k < |w|
    ensures !Boundary(s, i + k)
  {
    MatchIsWord(s, i, w, i + k - 1);
    MatchIsWord(s, i, w, i + k);
  }

  /** No lexicon word occurs as a whole word strictly inside a match. */
  lemma NoMatchInsideMatch(s: string, i: nat, k: nat, j: nat)
    requires k < |BIAS_WORDS| && WordAt(s, i, BIAS_WORDS[k]) && i < j < i + |BIAS_WORDS[k]|
    ensures !WholeWordAt(s, j)
  {
    LexiconWellFormed();
    if WholeWordAt(s, j) {
      InsideMatch(s, i, BIAS_WORDS[k], j - i);
    }
  }

  /** A match ends at a word boundary, so no lexicon word matches where a longer one does. */
  lemma NotShorter(s: string, i: nat, a: string, b: string)
    requires IsLexiconWord(a) && IsLexiconWord(b) && WordAt(s, i, a) && WordAt(s, i, b)
    ensures |b| <= |a|
  {
    if |a| < |b| {
      InsideMatch(s, i, b, |a|);
    }
  }

  /**
   * At any position at most one lexicon word matches, so the order in which the
   * alternation tries the words does not change what is wrapped.
   */
  lemma AtMostOneWord(s: string, i: nat, j: nat, k: nat)
    requires j < |BIAS_WORDS| && k < |BIAS_WORDS|
    requires WordAt(s, i, BIAS_WORDS[j]) && WordAt(s, i, BIAS_WORDS[k])
    ensures BIAS_WORDS[j] == BIAS_WORDS[k]
  {
    LexiconWellFormed();
    var a, b := BIAS_WORDS[j], BIAS_WORDS[k];
    NotShorter(s, i, a, b);
    NotShorter(s, i, b, a);
    forall m | 0 <= m < |a| ensures a[m] == b[m] {
      assert Lower(s[i..i + |a|][m]) == Lower(a[m]) == Lower(b[m]);
    }
  }

  /** What the pattern finds at each position of `s`. */
  function Table(s: string): (t: seq<Option<nat>>)
    ensures Fits(s, t)
  {
    seq(|s|, i requires 0 <= i < |s| => MatchAt(s, i))
  }

  /** The table reports a match exactly where a lexicon word occurs as a whole word. */
  lemma TableExact(s: string, i: nat)
    requires i < |s|
    ensures Table(s)[i].Some? <==> WholeWordAt(s, i)
    ensures Table(s)[i].Some? ==>
      exists j :: 0 <= j < |BIAS_WORDS| && WordAt(s, i, BIAS_WORDS[j]) && Table(s)[i].value == |BIAS_WORDS[j]|
  {
    MatchAtExact(s, i);
  }

  /** The pattern's matches never start inside one another. */
  lemma TableNoNested(s: string)
    ensures NoNested(Table(s))
  {
    var t := Table(s);
    forall j, k | 0 <= j < k < |t| && t[j].Some? && k < j + t[j].value ensures t[k].None? {
      TableExact(s, j);
      var w :| 0 <= w < |BIAS_WORDS| && WordAt(s, j, BIAS_WORDS[w]) && t[j].value == |BIAS_WORDS[w]|;
      NoMatchInsideMatch(s, j, w, k);
      TableExact(s, k);
    }
  }

  /** Every whole-word occurrence lies inside the text. */
  lemma WholeWordInside(s: string, i: nat)
    requires WholeWordAt(s, i)
    ensures i < |s|
  {
    var k :| 0 <= k < |BIAS_WORDS| && WordAt(s, i, BIAS_WORDS[k]);
    LexiconWellFormed();
    assert |BIAS_WORDS[k]| > 0;
  }

  // ---------------------------------------------------------------------------
  // `highlight_bias`, and what it does stated on its input and output

  /** The pieces `highlight_bias` cuts the article into. */
  function Pieces(text: string): seq<Piece> {
    ScanWith(text, Table(text), 0)
  }

  /** `highlight_bias`. */
  function Highlight(text: string): string {
    Render(Pieces(text))
  }

  /** The positions of `text` that `highlight_bias` wraps. */
  function MatchStarts(text: string): seq<nat> {
    Starts(Pieces(text))
  }

  /** Deleting the inserted markers from the highlighted text gives back the article. */
  lemma HighlightErases(text: string)
    ensures Erase(Pieces(text)) == text
  {
    ScanErases(text, Table(text), 0);
  }

  /** The highlighted text is six characters longer per match: `:red[` and `]`. */
  lemma HighlightLength(text: string)
    ensures |Highlight(text)| == |text| + 6 * |MatchStarts(text)|
  {
    HighlightErases(text);
    RenderLength(Pieces(text));
  }

  /**
   * The positions wrapped are exactly the positions where a lexicon word occurs as a
   * whole word, in any letter case, and they come in increasing order.
   */
  lemma MatchStartsExact(text: string)
    ensures forall m :: 0 <= m < |MatchStarts(text)| ==> WholeWordAt(text, MatchStarts(text)[m])
    ensures forall i :: WholeWordAt(text, i) ==> i in MatchStarts(text)
    ensures AscendingFrom(MatchStarts(text), 0)
  {
    var t := Table(text);
    ScanStartsSound(text, t, 0);
    forall m | 0 <= m < |MatchStarts(text)| ensures WholeWordAt(text, MatchStarts(text)[m]) {
      TableExact(text, MatchStarts(text)[m]);
    }
    TableNoNested(text);
    ScanStartsComplete(text, t, 0);
    forall i | WholeWordAt(text, i) ensures i in MatchStarts(text) {
      WholeWordInside(text, i);
      TableExact(text, i);
    }
    ScanStartsAscending(text, t, 0);
  }

  /** A wrapped piece is the text at its position, and that text is a lexicon word there. */
  ghost predicate MarkFaithful(s: string, p: Piece) {
    p.Mark? ==>
      && p.at + |p.text| <= |s|
      && p.text == s[p.at..p.at + |p.text|]
      && exists j :: 0 <= j < |BIAS_WORDS| && WordAt(s, p.at, BIAS_WORDS[j]) && |p.text| == |BIAS_WORDS[j]|
  }

  /**
   * Every wrapped piece keeps the article's own letters and case and is a lexicon word
   * there, and it stands at that position: the pieces before it cover exactly the text
   * before it.
   */
  lemma HighlightKeepsCase(text: string)
    ensures forall m :: 0 <= m < |Pieces(text)| ==> MarkFaithful(text, Pieces(text)[m])
    ensures forall m :: 0 <= m < |Pieces(text)| && Pieces(text)[m].Mark? ==>
      |Erase(Pieces(text)[..m])| == Pieces(text)[m].at
  {
    var t := Table(text);
    ScanAligned(text, t, 0);
    ScanMarksFit(text, t, 0);
    forall m | 0 <= m < |Pieces(text)| ensures MarkFaithful(text, Pieces(text)[m]) {
      var p := Pieces(text)[m];
      if p.Mark? {
        TableExact(text, p.at);
      }
    }
  }

  /** A string cut in three parts: the first is its prefix and the second the slice after it. */
  lemma CutInThree(s: string, a: string, w: string, b: string)
    requires s == a + w + b
    ensures a == s[..|a|] && w == s[|a|..|a| + |w|]
  {
    assert s[..|a|] == (a + w + b)[..|a|];
  }

  /**
   * A marked piece whose erased predecessors are as long as its position: what comes before
   * it erases to the text up to that position, and its own text is the text there.
   */
  lemma {:induction false} MarkInPlace(s: string, ps: seq<Piece>, m: nat)
    requires Erase(ps) == s && m < |ps| && ps[m].Mark?
    requires |Erase(ps[..m])| == ps[m].at
    ensures ps[m].at + |ps[m].text| <= |s|
    ensures Erase(ps[..m]) == s[..ps[m].at]
    ensures ps[m].text == s[ps[m].at..ps[m].at + |ps[m].text|]
  {
    var before, w, after := Erase(ps[..m]), ps[m].text, Erase(ps[m + 1..]);
    PiecesAround(ps, m);
    CutInThree(s, before, w, after);
  }

  /**
   * A faithful marked piece standing at its position in pieces that erase to `s` is
   * wrapped where it stands: the rendering is that of the pieces up to it, then `:red[`,
   * the text's own letters there, `]`, and the rendering of the pieces after it.
   */
  lemma WrappedInPlace(s: string, ps: seq<Piece>, m: nat)
    requires Erase(ps) == s && m < |ps| && ps[m].Mark?
    requires |Erase(ps[..m])| == ps[m].at && MarkFaithful(s, ps[m])
    ensures var at, len := ps[m].at, |ps[m].text|;
      && at + len <= |s|
      && WholeWordAt(s, at)
      && Erase(ps[..m]) == s[..at]
      && Render(ps) == Render(ps[..m]) + (OPEN_MARK + s[at..at + len] + CLOSE_MARK) + Render(ps[m + 1..])
  {
    MarkInPlace(s, ps, m);
    PiecesAround(ps, m);
  }

  /**
   * The `m`-th piece, a wrapped one, stands where it is in the text: the pieces before it
   * cover the text up to it, and the highlighted text is their rendering, then `:red[`,
   * the text's own letters there, `]`, and the rendering of the pieces after it.
   */
  ghost predicate WrapsAt(text: string, ps: seq<Piece>, m: nat)
    requires m < |ps| && ps[m].Mark?
  {
    var at, len := ps[m].at, |ps[m].text|;
    && at + len <= |text|
    && Erase(ps[..m]) == text[..at]
    && Highlight(text) == Render(ps[..m]) + (OPEN_MARK + text[at..at + len] + CLOSE_MARK) + Render(ps[m + 1..])
  }

  /**
   * Each match is wrapped where it stands: the highlighted text is the rendering of the
   * pieces that cover the article up to the match, then `:red[`, the article's own text of
   * the match, `]`, and the rendering of the pieces after it.
   */
  lemma HighlightWrapsInPlace(text: string, ps: seq<Piece>, m: nat)
    requires ps == Pieces(text) && m < |ps| && ps[m].Mark?
    ensures WholeWordAt(text, ps[m].at) && WrapsAt(text, ps, m)
  {
    assert Erase(ps) == text && MarkFaithful(text, ps[m]) && |Erase(ps[..m])| == ps[m].at by {
      HighlightKeepsCase(text);
      HighlightErases(text);
    }
    WrappedInPlace(text, ps, m);
  }

  /**
   * Every whole-word occurrence of a lexicon word is wrapped where it stands: some wrapped
   * piece is at its position, is the article's own text of the word there, and the
   * highlighted text is the rendering of the pieces before it, then `:red[`, that text,
   * `]`, and the rendering of the pieces after it.
   */
  lemma HighlightWrapsOccurrence(text: string, ps: seq<Piece>, i: nat)
    requires ps == Pieces(text) && WholeWordAt(text, i)
    ensures exists m ::
      0 <= m < |ps| && ps[m].Mark? && ps[m].at == i && MarkFaithful(text, ps[m]) && WrapsAt(text, ps, m)
  {
    assert i in Starts(ps) by {
      MatchStartsExact(text);
    }
    StartsAreMarks(ps, i);
    var m :| 0 <= m < |ps| && ps[m].Mark? && ps[m].at == i;
    assert MarkFaithful(text, ps[m]) by {
      HighlightKeepsCase(text);
    }
    HighlightWrapsInPlace(text, ps, m);
  }

  /** Cutting the pieces around the `m`-th one cuts their rendering and their erasure alike. */
  lemma {:induction false} PiecesAround(ps: seq<Piece>, m: nat)
    requires m < |ps|
    ensures Render(ps) == Render(ps[..m]) + RenderPiece(ps[m]) + Render(ps[m + 1..])
    ensures Erase(ps) == Erase(ps[..m]) + ErasePiece(ps[m]) + Erase(ps[m + 1..])
  {
    var head, tail := ps[..m], [ps[m]] + ps[m + 1..];
    assert head + tail == ps;
    assert Render(tail) == RenderPiece(ps[m]) + Render(ps[m + 1..]) by {
      assert tail[1..] == ps[m + 1..];
    }
    assert Erase(tail) == ErasePiece(ps[m]) + Erase(ps[m + 1..]) by {
      assert tail[1..] == ps[m + 1..];
    }
    RenderAppend(head, tail);
    EraseAppend(head, tail);
  }

  /** The text comes back unchanged exactly when no lexicon word occurs in it as a whole word. */
  lemma HighlightUnchanged(text: string)
    ensures Highlight(text) == text <==> forall i :: !WholeWordAt(text, i)
  {
    HighlightErases(text);
    HighlightLength(text);
    MatchStartsExact(text);
    if forall i :: !WholeWordAt(text, i) {
      RenderWithoutMarks(Pieces(text));
    }
  }

  /**
   * In a text made of word characters only, a match can only be the whole text: a lexicon
   * word inside a longer word is never wrapped.
   */
  lemma OnlyWholeTextInOneWord(s: string, i: nat)
    requires forall k :: 0 <= k < |s| ==> IsWordChar(s[k])
    requires WholeWordAt(s, i)
    ensures i == 0 && exists j :: 0 <= j < |BIAS_WORDS| && |BIAS_WORDS[j]| == |s| && FoldEq(s, BIAS_WORDS[j])
  {
    var j :| 0 <= j < |BIAS_WORDS| && WordAt(s, i, BIAS_WORDS[j]);
    LexiconWellFormed();
    MatchFlanked(s, i, BIAS_WORDS[j]);
    assert s[0..|s|] == s;
  }

  /** One word that is not itself a lexicon word comes back unchanged. */
  lemma OneWordUnchanged(s: string)
    requires forall k :: 0 <= k < |s| ==> IsWordChar(s[k])
    requires forall j :: 0 <= j < |BIAS_WORDS| && |BIAS_WORDS[j]| == |s| ==> !FoldEq(s, BIAS_WORDS[j])
    ensures Highlight(s) == s
  {
    forall i ensures !WholeWordAt(s, i) {
      if WholeWordAt(s, i) {
        OnlyWholeTextInOneWord(s, i);
      }
    }
    HighlightUnchanged(s);
  }

  /** A table that reports one match covering the whole text scans to that one piece. */
  lemma ScanWhole(s: string, t: seq<Option<nat>>)
    requires Fits(s, t) && 0 < |s| && t[0] == Some(|s|)
    ensures Render(ScanWith(s, t, 0)) == OPEN_MARK + s + CLOSE_MARK
  {
    assert s[0..|s|] == s;
    assert ScanWith(s, t, 0) == [Mark(0, s)];
    assert [Mark(0, s)][1..] == [];
  }

  /** One word that is a lexicon word in some letter case is wrapped whole, its case kept. */
  lemma OneWordWrapped(s: string)
    requires forall k :: 0 <= k < |s| ==> IsWordChar(s[k])
    requires exists j :: 0 <= j < |BIAS_WORDS| && |BIAS_WORDS[j]| == |s| && FoldEq(s, BIAS_WORDS[j])
    ensures Highlight(s) == OPEN_MARK + s + CLOSE_MARK
  {
    LexiconWellFormed();
    var t := Table(s);
    assert 0 < |s| && WholeWordAt(s, 0) by {
      var j :| 0 <= j < |BIAS_WORDS| && |BIAS_WORDS[j]| == |s| && FoldEq(s, BIAS_WORDS[j]);
      assert s[0..|s|] == s;
      assert WordAt(s, 0, BIAS_WORDS[j]);
    }
    assert t[0] == Some(|s|) by {
      TableExact(s, 0);
      var j' :| 0 <= j' < |BIAS_WORDS| && WordAt(s, 0, BIAS_WORDS[j']) && t[0].value == |BIAS_WORDS[j']|;
      MatchFlanked(s, 0, BIAS_WORDS[j']);
    }
    ScanWhole(s, t);
  }

  // ---------------------------------------------------------------------------
  // Worked articles

  /** The eight-letter lexicon words start with `s` and `d`; a word starting otherwise is neither. */
  lemma NotEightLetterWord(s: string)
    requires |s| == 8 && Lower(s[0]) != 's' && Lower(s[0]) != 'd'
    ensures forall j :: 0 <= j < |BIAS_WORDS| && |BIAS_WORDS[j]| == |s| ==> !FoldEq(s, BIAS_WORDS[j])
  {
    forall j | 0 <= j < |BIAS_WORDS| && |BIAS_WORDS[j]| == |s| ensures !FoldEq(s, BIAS_WORDS[j]) {
      assert BIAS_WORDS[j] == "shocking" || BIAS_WORDS[j] == "disaster";
      assert Lower(s[0]) != Lower(BIAS_WORDS[j][0]);
    }
  }

  /** A lexicon word at the start or the end of a longer word is not highlighted. */
  lemma ExampleInsideLongerWord(s: string, s': string)
    requires s == "fakeness" && s' == "unbiased"
    ensures Highlight(s) == s && Highlight(s') == s'
  {
    NotEightLetterWord(s);
    OneWordUnchanged(s);
    NotEightLetterWord(s');
    OneWordUnchanged(s');
  }

  /** `_` and digits are word characters, so they also keep a lexicon word from matching. */
  lemma ExampleUnderscoreAndDigit(s: string, s': string)
    requires s == "fake_news" && s' == "fake2"
    ensures Highlight(s) == s && Highlight(s') == s'
  {
    assert forall j :: 0 <= j < |BIAS_WORDS| ==> |BIAS_WORDS[j]| != 9 && |BIAS_WORDS[j]| != 5;
    OneWordUnchanged(s);
    OneWordUnchanged(s');
  }

  /** A match in capitals is wrapped with its capitals. */
  lemma ExampleCapitals(s: string)
    requires s == "FAKE"
    ensures Highlight(s) == ":red[FAKE]"
  {
    assert BIAS_WORDS[6] == "fake";
    assert FoldEq(s, BIAS_WORDS[6]);
    OneWordWrapped(s);
  }
}
