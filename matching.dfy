/** The two relevance tests of the scoring engine.

    The strict test (used for the reciprocal rank) looks for whole-word,
    case-insensitive occurrences of a keyword, as
    `re.finditer(r'\b' + re.escape(keyword) + r'\b', content, re.IGNORECASE)`
    enumerates them for ASCII text, and discards an occurrence when the
    lower-cased text before it in its sentence contains a negation word.

    The coarse test (used for precision and recall) is a case-insensitive
    substring test with no word boundaries and no negation. */
module Matching {
  import opened Text

  /** `\w` restricted to ASCII: `[A-Za-z0-9_]`. */
  predicate IsWordChar(c: char) {
    'a' <= c <= 'z' || 'A' <= c <= 'Z' || '0' <= c <= '9' || c == '_'
  }

  /** `\b` at index `i` of `s`: exactly one of the characters on either
      side is a word character (outside the string counts as non-word). */
  predicate AtBoundary(s: string, i: nat)
    requires i <= |s|
  {
    (0 < i && IsWordChar(s[i - 1])) != (i < |s| && IsWordChar(s[i]))
  }

  /** Python's IGNORECASE comparison of two equally long strings, character
      by character. */
  predicate EqualIgnoringCase(a: string, b: string) {
    |a| == |b| && (|a| == 0 || (LowerChar(a[0]) == LowerChar(b[0]) && EqualIgnoringCase(a[1..], b[1..])))
  }

  /** Comparing ignoring case is comparing the lower-cased strings. */
  lemma {:induction false} EqualIgnoringCaseIffLower(a: string, b: string)
    ensures EqualIgnoringCase(a, b) <==> Lower(a) == Lower(b)
    decreases |a|
  {
    if |a| == |b| && |a| > 0 {
      EqualIgnoringCaseIffLower(a[1..], b[1..]);
      if Lower(a) == Lower(b) {
        assert Lower(a[1..]) == Lower(a)[1..];
        assert Lower(b[1..]) == Lower(b)[1..];
      } else if LowerChar(a[0]) == LowerChar(b[0]) {
        assert Lower(a) == [LowerChar(a[0])] + Lower(a[1..]);
        assert Lower(b) == [LowerChar(b[0])] + Lower(b[1..]);
      }
    } else if |a| != |b| {
      assert |Lower(a)| != |Lower(b)|;
    }
  }

  /** The pattern `\b<keyword>\b` matches `content` at `p` when IGNORECASE
      is on: the characters agree up to case and both ends are boundaries. */
  predicate OccursAt(content: string, keyword: string, p: nat) {
    && p + |keyword| <= |content|
    && EqualIgnoringCase(content[p..p + |keyword|], keyword)
    && AtBoundary(content, p)
    && AtBoundary(content, p + |keyword|)
  }

  /** For each position `0..|content|`, whether the pattern matches there. */
  function Occurrences(content: string, keyword: string): (occ: seq<bool>)
    ensures |occ| == |content| + 1
    ensures forall p :: 0 <= p < |occ| ==> occ[p] == OccursAt(content, keyword, p)
  {
    seq(|content| + 1, p requires 0 <= p <= |content| => OccursAt(content, keyword, p))
  }

  /** How far `finditer` moves on after a match at some position: past the
      match, or by one character after an empty match. */
  function Step(keyword: string): nat {
    if |keyword| == 0 then 1 else |keyword|
  }

  /** The positions a left-to-right, non-overlapping scan picks out of the
      candidate positions `occ`, starting at `from` and moving `step` past
      each pick. The picks are candidates, in increasing order, at least
      `step` apart. */
  function Select(occ: seq<bool>, step: nat, from: nat): (ms: seq<nat>)
    requires step > 0
    ensures forall j :: 0 <= j < |ms| ==> from <= ms[j] < |occ| && occ[ms[j]]
    ensures forall i, j :: 0 <= i < j < |ms| ==> ms[i] + step <= ms[j]
    decreases |occ| - from
  {
    if from >= |occ| then []
    else if occ[from] then [from] + Select(occ, step, from + step)
    else Select(occ, step, from + 1)
  }

  /** Some pick in `ms` spans position `p`. */
  predicate Covered(ms: seq<nat>, step: nat, p: nat) {
    exists j :: 0 <= j < |ms| && ms[j] <= p < ms[j] + step
  }

  lemma CoveredCons(m: nat, rest: seq<nat>, step: nat, p: nat)
    requires Covered(rest, step, p)
    ensures Covered([m] + rest, step, p)
  {
    var j :| 0 <= j < |rest| && rest[j] <= p < rest[j] + step;
    assert ([m] + rest)[j + 1] == rest[j];
  }

  /** No candidate is skipped unless it lies inside the span of a pick made
      before it. */
  lemma {:induction false} SelectComplete(occ: seq<bool>, step: nat, from: nat, p: nat)
    requires step > 0
    requires from <= p < |occ| && occ[p]
    ensures Covered(Select(occ, step, from), step, p)
    decreases p - from
  {
    if occ[from] {
      var rest := Select(occ, step, from + step);
      assert Select(occ, step, from) == [from] + rest;
      if p < from + step {
        assert ([from] + rest)[0] == from;
      } else {
        SelectComplete(occ, step, from + step, p);
        CoveredCons(from, rest, step, p);
      }
    } else {
      SelectComplete(occ, step, from + 1, p);
    }
  }

  /** `list(re.finditer(r'\b' + re.escape(keyword) + r'\b', content,
      re.IGNORECASE))`, as match start positions. */
  function Matches(content: string, keyword: string): seq<nat> {
    Select(Occurrences(content, keyword), Step(keyword), 0)
  }

  /** Every match `finditer` reports is a whole-word, case-insensitive
      occurrence; the matches come in text order and do not overlap. */
  lemma MatchesSound(content: string, keyword: string)
    ensures forall j :: 0 <= j < |Matches(content, keyword)| ==> OccursAt(content, keyword, Matches(content, keyword)[j])
    ensures forall i, j :: 0 <= i < j < |Matches(content, keyword)| ==>
              Matches(content, keyword)[i] + Step(keyword) <= Matches(content, keyword)[j]
  {
  }

  /** Every match lies inside the content. */
  lemma MatchesFit(content: string, keyword: string)
    ensures forall j :: 0 <= j < |Matches(content, keyword)| ==> Matches(content, keyword)[j] + |keyword| <= |content|
  {
    MatchesSound(content, keyword);
  }

  /** A match that is not negated makes the keyword qualify. */
  lemma QualifiesByMatch(content: string, keyword: string, j: nat)
    requires j < |Matches(content, keyword)|
    requires Matches(content, keyword)[j] + |keyword| <= |content|
    requires !MatchNegated(content, keyword, Matches(content, keyword)[j])
    ensures KeywordQualifies(content, keyword)
  {
  }

  /** When every match is negated, the keyword does not qualify. */
  lemma QualifiesOnlyUnnegated(content: string, keyword: string)
    requires forall t :: 0 <= t < |Matches(content, keyword)| ==>
               Matches(content, keyword)[t] + |keyword| <= |content| &&
               MatchNegated(content, keyword, Matches(content, keyword)[t])
    ensures !KeywordQualifies(content, keyword)
  {
  }

  /** Every whole-word occurrence is reported by `finditer` or overlaps a
      match reported before it. */
  lemma MatchesComplete(content: string, keyword: string, p: nat)
    requires OccursAt(content, keyword, p)
    ensures exists j :: 0 <= j < |Matches(content, keyword)| &&
                        Matches(content, keyword)[j] <= p < Matches(content, keyword)[j] + Step(keyword)
  {
    var occ := Occurrences(content, keyword);
    assert occ[p];
    SelectComplete(occ, Step(keyword), 0, p);
    var ms := Select(occ, Step(keyword), 0);
    assert ms == Matches(content, keyword);
    var j :| 0 <= j < |ms| && ms[j] <= p < ms[j] + Step(keyword);
    assert 0 <= j < |Matches(content, keyword)| && Matches(content, keyword)[j] <= p < Matches(content, keyword)[j] + Step(keyword);
  }

  /** `finditer` finds nothing exactly when the keyword never occurs as a
      whole word. */
  lemma NoMatchesIffNoOccurrence(content: string, keyword: string)
    ensures |Matches(content, keyword)| == 0 <==> forall p: nat :: !OccursAt(content, keyword, p)
  {
    var ms := Matches(content, keyword);
    if exists p: nat :: OccursAt(content, keyword, p) {
      var p: nat :| OccursAt(content, keyword, p);
      MatchesComplete(content, keyword, p);
      assert |ms| > 0;
    }
    if |ms| > 0 {
      MatchesSound(content, keyword);
      assert OccursAt(content, keyword, ms[0]);
    }
  }

  /** A keyword ending in a word character never matches when the text
      goes on with another word character: "cat" never matches inside
      "category". */
  lemma NoMatchInsideWord(content: string, keyword: string, p: nat)
    requires |keyword| > 0 && IsWordChar(keyword[|keyword| - 1])
    requires p + |keyword| < |content| && IsWordChar(content[p + |keyword|])
    ensures !OccursAt(content, keyword, p)
  {
    var e := p + |keyword|;
    EqualIgnoringCaseIffLower(content[p..e], keyword);
    if EqualIgnoringCase(content[p..e], keyword) {
      assert Lower(content[p..e])[|keyword| - 1] == Lower(keyword)[|keyword| - 1];
    }
  }

  /** The same holds at the front: a keyword starting with a word character
      never matches right after another word character. */
  lemma NoMatchAfterWordChar(content: string, keyword: string, p: nat)
    requires |keyword| > 0 && IsWordChar(keyword[0])
    requires 0 < p && p + |keyword| <= |content| && IsWordChar(content[p - 1])
    ensures !OccursAt(content, keyword, p)
  {
    EqualIgnoringCaseIffLower(content[p..p + |keyword|], keyword);
    if EqualIgnoringCase(content[p..p + |keyword|], keyword) {
      assert Lower(content[p..p + |keyword|])[0] == Lower(keyword)[0];
    }
  }

  // ----- Sentence around a match -----

  predicate IsTerminator(c: char) {
    c == '.' || c == '!' || c == '?'
  }

  function Max3(a: int, b: int, c: int): int {
    if a >= b && a >= c then a else if b >= c then b else c
  }

  function Min3(a: int, b: int, c: int): int {
    if a <= b && a <= c then a else if b <= c then b else c
  }

  /** `sentence_start`: one past the greatest of the three `rfind`s before
      the match start `p`, or 0 when all three are -1. */
  function SentenceStart(content: string, p: nat): (ss: nat)
    requires p <= |content|
    ensures ss <= p
  {
    var prev := Max3(RFind(content, '.', p), RFind(content, '!', p), RFind(content, '?', p));
    if prev == -1 then 0 else prev + 1
  }

  /** The sentence starts right after the last '.', '!' or '?' before the
      match, or at the start of the content when there is none. */
  lemma SentenceStartSpec(content: string, p: nat)
    requires p <= |content|
    ensures SentenceStart(content, p) > 0 ==> IsTerminator(content[SentenceStart(content, p) - 1])
    ensures forall j :: SentenceStart(content, p) <= j < p ==> !IsTerminator(content[j])
  {
    RFindIsLast(content, '.', p);
    RFindIsLast(content, '!', p);
    RFindIsLast(content, '?', p);
  }

  /** Some position from `e` on holds `c`. */
  predicate OccursFrom(content: string, c: char, e: nat) {
    exists j :: e <= j < |content| && content[j] == c
  }

  /** `next_sentence_start`: the minimum of the three `find`s after the
      match end `e`. */
  function NextSentenceStart(content: string, e: nat): (r: int)
    requires e <= |content|
    ensures r == -1 || e <= r < |content|
  {
    Min3(Find(content, '.', e), Find(content, '!', e), Find(content, '?', e))
  }

  /** The minimum is -1 as soon as any ONE of '.', '!' and '?' is missing
      from the rest of the content, even when the others are present;
      otherwise it is the first terminator after the match. */
  lemma NextSentenceStartSpec(content: string, e: nat)
    requires e <= |content|
    ensures NextSentenceStart(content, e) == -1 <==>
              !OccursFrom(content, '.', e) || !OccursFrom(content, '!', e) || !OccursFrom(content, '?', e)
    ensures NextSentenceStart(content, e) != -1 ==>
              IsTerminator(content[NextSentenceStart(content, e)]) &&
              forall j :: e <= j < NextSentenceStart(content, e) ==> !IsTerminator(content[j])
  {
    FindIsFirst(content, '.', e);
    FindIsFirst(content, '!', e);
    FindIsFirst(content, '?', e);
    var a, b, c := Find(content, '.', e), Find(content, '!', e), Find(content, '?', e);
    assert a == -1 <==> !OccursFrom(content, '.', e);
    assert b == -1 <==> !OccursFrom(content, '!', e);
    assert c == -1 <==> !OccursFrom(content, '?', e);
  }

  /** `sentence_end`: one past the next sentence start, or the whole length. */
  function SentenceEnd(content: string, e: nat): (se: nat)
    requires e <= |content|
    ensures e <= se <= |content|
  {
    var next := NextSentenceStart(content, e);
    if next == -1 then |content| else next + 1
  }

  /** `sentence.strip()[:pos].lower()`: Python slicing stops at the end of
      the stripped sentence. */
  function StrippedPrefix(sentence: string, pos: nat): string {
    var stripped := Strip(sentence);
    Lower(stripped[..if pos <= |stripped| then pos else |stripped|])
  }

  /** `part_before_keyword` for a match spanning `[p, e)`: the stripped
      sentence cut at `p - sentence_start`, an offset counted from the
      UNSTRIPPED sentence start, lower-cased. */
  function PartBeforeKeyword(content: string, p: nat, e: nat): string
    requires p <= e <= |content|
  {
    var ss := SentenceStart(content, p);
    StrippedPrefix(content[ss..SentenceEnd(content, e)], p - ss)
  }

  /** Stripping a sentence that does not start with whitespace keeps every
      prefix that ends before a non-whitespace character. */
  lemma StrippedPrefixWithoutLeadingSpace(sentence: string, n: nat)
    requires n < |sentence| && !IsSpace(sentence[0]) && !IsSpace(sentence[n])
    ensures StrippedPrefix(sentence, n) == Lower(sentence[..n])
  {
    StripSpec(sentence);
    assert StripStart(sentence) == 0;
  }

  /** When the sentence does not start with whitespace, the text examined is
      exactly the sentence up to the match, lower-cased. */
  lemma PartBeforeWithoutLeadingSpace(content: string, p: nat, e: nat)
    requires p < e <= |content|
    requires !IsSpace(content[p])
    requires !IsSpace(content[SentenceStart(content, p)])
    ensures PartBeforeKeyword(content, p, e) == Lower(content[SentenceStart(content, p)..p])
  {
    var ss := SentenceStart(content, p);
    var se := SentenceEnd(content, e);
    assert ss <= p < e <= se;
    var sentence := content[ss..se];
    assert sentence[0] == content[ss] && sentence[p - ss] == content[p];
    StrippedPrefixWithoutLeadingSpace(sentence, p - ss);
    assert sentence[..p - ss] == content[ss..p] by {
      assert forall j :: 0 <= j < p - ss ==> sentence[j] == content[ss + j];
    }
  }

  /** The stripped prefix is a slice of the sentence: it starts after the
      leading whitespace and runs for `pos` characters or to the end of the
      stripped sentence. */
  lemma StrippedPrefixIsSlice(sentence: string, pos: nat)
    ensures var lead := StripStart(sentence);
            var cut := if pos <= |Strip(sentence)| then pos else |Strip(sentence)|;
            && lead + cut <= |sentence|
            && StrippedPrefix(sentence, pos) == Lower(sentence[lead..lead + cut])
  {
    StripSpec(sentence);
    var lead := StripStart(sentence);
    var stripped := Strip(sentence);
    var cut := if pos <= |stripped| then pos else |stripped|;
    assert stripped[..cut] == sentence[lead..lead + cut];
  }

  /** In general the text examined is the content from just after the
      sentence's leading whitespace, `lead` characters past the sentence
      start, for as many characters as lie between the sentence start and
      the match (or to the end of the stripped sentence): leading
      whitespace shifts the window right by `lead`, and nothing before the
      sentence start is ever examined. */
  lemma PartBeforeKeywordShifted(content: string, p: nat, e: nat)
    requires p <= e <= |content|
    ensures var ss := SentenceStart(content, p);
            var sentence := content[ss..SentenceEnd(content, e)];
            var lead := StripStart(sentence);
            var cut := if p - ss <= |Strip(sentence)| then p - ss else |Strip(sentence)|;
            && ss + lead + cut <= SentenceEnd(content, e)
            && (forall j :: ss <= j < ss + lead ==> IsSpace(content[j]))
            && PartBeforeKeyword(content, p, e) == Lower(content[ss + lead..ss + lead + cut])
  {
    var ss := SentenceStart(content, p);
    StrippedSliceShifted(content, ss, SentenceEnd(content, e), p - ss);
  }

  /** The same for any slice `s[a..b]` cut at `pos`. */
  lemma StrippedSliceShifted(s: string, a: nat, b: nat, pos: nat)
    requires a <= b <= |s|
    ensures var lead := StripStart(s[a..b]);
            var cut := if pos <= |Strip(s[a..b])| then pos else |Strip(s[a..b])|;
            && a + lead + cut <= b
            && (forall j :: a <= j < a + lead ==> IsSpace(s[j]))
            && StrippedPrefix(s[a..b], pos) == Lower(s[a + lead..a + lead + cut])
  {
    var sentence := s[a..b];
    var lead := StripStart(sentence);
    var cut := if pos <= |Strip(sentence)| then pos else |Strip(sentence)|;
    StrippedPrefixIsSlice(sentence, pos);
    SliceOfSlice(s, a, b, lead, lead + cut);
    LeadingSpaceOfSlice(s, a, b);
  }

  lemma SliceOfSlice(s: string, a: nat, b: nat, i: nat, j: nat)
    requires a <= b <= |s| && i <= j <= b - a
    ensures s[a..b][i..j] == s[a + i..a + j]
  {
    forall k | 0 <= k < j - i
      ensures s[a..b][i..j][k] == s[a + i..a + j][k]
    {
      assert s[a..b][i..j][k] == s[a..b][i + k] == s[a + i + k];
    }
  }

  /** The whitespace `strip()` removes from the front of `s[a..b]` is
      whitespace of `s`. */
  lemma LeadingSpaceOfSlice(s: string, a: nat, b: nat)
    requires a <= b <= |s|
    ensures forall j :: a <= j < a + StripStart(s[a..b]) ==> IsSpace(s[j])
  {
    var sentence := s[a..b];
    StripSpec(sentence);
    forall j | a <= j < a + StripStart(sentence)
      ensures IsSpace(s[j])
    {
      assert s[j] == sentence[j - a];
    }
  }

  const NegationWords: seq<string> :=
    ["not", "no", "never", "nothing", "nowhere", "neither", "nobody", "none", "lack", "absence", "without"]

  /** `any(neg_word in part for neg_word in negation_words)`. */
  predicate HasNegation(part: string) {
    exists w | w in NegationWords :: Contains(part, w)
  }

  /** The match of `keyword` at `p` is in a negated context. */
  predicate MatchNegated(content: string, keyword: string, p: nat)
    requires p + |keyword| <= |content|
  {
    HasNegation(PartBeforeKeyword(content, p, p + |keyword|))
  }

  /** Some match `finditer` reports for `keyword` is not negated (the flag
      `found_non_negated_match` after the inner loop). */
  predicate KeywordQualifies(content: string, keyword: string) {
    var ms := Matches(content, keyword);
    exists j | 0 <= j < |ms| :: !MatchNegated(content, keyword, ms[j])
  }

  /** A result is relevant for the reciprocal rank when some keyword
      qualifies in its content. */
  predicate StrictRelevant(content: string, keywords: seq<string>) {
    exists k | 0 <= k < |keywords| :: KeywordQualifies(content, keywords[k])
  }

  /** A qualifying keyword has a whole-word, case-insensitive occurrence
      whose sentence prefix holds no negation word. */
  lemma QualifiesHasOccurrence(content: string, keyword: string)
    requires KeywordQualifies(content, keyword)
    ensures exists p: nat :: OccursAt(content, keyword, p) && !MatchNegated(content, keyword, p)
  {
    var ms := Matches(content, keyword);
    var j :| 0 <= j < |ms| && !MatchNegated(content, keyword, ms[j]);
    MatchesSound(content, keyword);
    assert OccursAt(content, keyword, ms[j]);
  }

  /** The coarse test of precision and recall:
      `any(keyword.lower() in content.lower() for keyword in keywords)`. */
  predicate CoarseRelevant(content: string, keywords: seq<string>) {
    exists k | 0 <= k < |keywords| :: Contains(Lower(content), Lower(keywords[k]))
  }

  /** A whole-word occurrence is in particular a substring occurrence of
      the lower-cased keyword in the lower-cased content. */
  lemma OccurrenceIsSubstring(content: string, keyword: string, p: nat)
    requires OccursAt(content, keyword, p)
    ensures Contains(Lower(content), Lower(keyword))
  {
    LowerSlice(content, p, p + |keyword|);
    EqualIgnoringCaseIffLower(content[p..p + |keyword|], keyword);
    assert SubstringAt(Lower(content), Lower(keyword), p);
  }

  /** The strict test is finer than the coarse one: a result relevant for
      the reciprocal rank is also counted by precision and recall. */
  lemma StrictImpliesCoarse(content: string, keywords: seq<string>)
    requires StrictRelevant(content, keywords)
    ensures CoarseRelevant(content, keywords)
  {
    var k :| 0 <= k < |keywords| && KeywordQualifies(content, keywords[k]);
    QualifiesHasOccurrence(content, keywords[k]);
    var p: nat :| OccursAt(content, keywords[k], p) && !MatchNegated(content, keywords[k], p);
    OccurrenceIsSubstring(content, keywords[k], p);
  }
}
