/** Concrete inputs that pin down how the strict relevance test behaves,
    including the places where it departs from a reading of "a whole-word,
    non-negated mention of the keyword". */
module Scenarios {
  import opened Text
  import opened Matching
  import opened Records
  import opened EvaluationMetrics

  /** "cat" is a substring of "category", which the coarse test counts,
      but has no whole-word occurrence in it, which the strict test needs. */
  lemma CatNotInCategory()
    ensures Contains(Lower("category"), Lower("cat"))
    ensures forall p: nat :: !OccursAt("category", "cat", p)
    ensures |Matches("category", "cat")| == 0
  {
    assert Lower("category") == "category" && Lower("cat") == "cat";
    assert SubstringAt("category", "cat", 0);
    forall p: nat
      ensures !OccursAt("category", "cat", p)
    {
      if p == 0 {
        NoMatchInsideWord("category", "cat", 0);
      } else if p + 3 <= 8 {
        EqualIgnoringCaseIffLower("category"[p..p + 3], "cat");
        assert Lower("category"[p..p + 3])[0] != Lower("cat")[0] ||
               Lower("category"[p..p + 3])[1] != Lower("cat")[1];
      }
    }
    NoMatchesIffNoOccurrence("category", "cat");
  }

  /** The negation test is a substring test: "no" inside "know" negates the
      match of "cat" in "I know cat". */
  lemma NegationInsideKnow()
    ensures OccursAt("I know cat", "cat", 7)
    ensures MatchNegated("I know cat", "cat", 7)
  {
    var content := "I know cat";
    EqualIgnoringCaseIffLower(content[7..10], "cat");
    assert Lower(content[7..10]) == "cat";
    assert Lower("cat") == "cat";
    SentenceStartSpec(content, 7);
    assert SentenceStart(content, 7) == 0;
    PartBeforeWithoutLeadingSpace(content, 7, 10);
    assert PartBeforeKeyword(content, 7, 10) == "i know ";
    assert SubstringAt("i know ", "no", 3);
    assert Contains("i know ", "no");
    assert "no" in NegationWords;
  }

  lemma SentenceStartAfterOk()
    ensures SentenceStart("Ok.      cat no", 9) == 3
  {
    SentenceStartSpec("Ok.      cat no", 9);
  }

  lemma SentenceEndWithoutExclamation()
    ensures SentenceEnd("Ok.      cat no", 12) == 15
  {
    NextSentenceStartSpec("Ok.      cat no", 12);
    assert !OccursFrom("Ok.      cat no", '!', 12);
  }

  lemma StripSixSpaces()
    ensures Strip("      cat no") == "cat no"
  {
    var sentence := "      cat no";
    StripSpec(sentence);
    assert StripStart(sentence) == 6;
  }

  /** The prefix length is counted from the unstripped sentence start, so
      the six spaces after "Ok." push the window six characters past the
      match: the "no" AFTER "cat" negates it. */
  lemma LeadingSpacesShiftThePrefix()
    ensures OccursAt("Ok.      cat no", "cat", 9)
    ensures MatchNegated("Ok.      cat no", "cat", 9)
  {
    var content := "Ok.      cat no";
    EqualIgnoringCaseIffLower(content[9..12], "cat");
    assert Lower(content[9..12]) == "cat";
    assert Lower("cat") == "cat";
    SentenceStartAfterOk();
    SentenceEndWithoutExclamation();
    assert content[3..15] == "      cat no";
    StripSixSpaces();
    assert PartBeforeKeyword(content, 9, 12) == Lower("cat no");
    assert Lower("cat no") == "cat no";
    assert SubstringAt("cat no", "no", 4);
    assert Contains("cat no", "no");
    assert "no" in NegationWords;
  }

  /** A text of at most three characters without an 'n' contains no
      negation word: only "no" and "not" are that short. */
  lemma NoNegationInShortText(part: string)
    requires |part| < 4
    requires forall i :: 0 <= i < |part| ==> part[i] != 'n'
    ensures !HasNegation(part)
  {
    forall w | w in NegationWords
      ensures !Contains(part, w)
    {
      forall i: nat | i <= |part|
        ensures !SubstringAt(part, w, i)
      {
        if i + |w| <= |part| {
          assert w == "no" || w == "not";
          assert part[i..i + |w|][0] != w[0];
        }
      }
    }
  }

  lemma SentenceStartAfterX(content: string)
    requires content == "x.      ab. no" || content == "x.      ab. no!?"
    ensures SentenceStart(content, 8) == 2
  {
    SentenceStartSpec(content, 8);
  }

  lemma SentenceEndWithoutBang()
    ensures SentenceEnd("x.      ab. no", 10) == 14
  {
    NextSentenceStartSpec("x.      ab. no", 10);
    assert !OccursFrom("x.      ab. no", '!', 10);
  }

  lemma SentenceEndWithAllThree()
    ensures SentenceEnd("x.      ab. no!?", 10) == 11
  {
    var content := "x.      ab. no!?";
    NextSentenceStartSpec(content, 10);
    assert content[10] == '.' && content[14] == '!' && content[15] == '?';
  }

  lemma StripBeforeAbNo()
    ensures Strip("      ab. no") == "ab. no"
  {
    StripSpec("      ab. no");
    assert StripStart("      ab. no") == 6;
  }

  lemma StripBeforeAb()
    ensures Strip("      ab.") == "ab."
  {
    StripSpec("      ab.");
    assert StripStart("      ab.") == 6;
  }

  /** "ab" stands as a whole word at position 8 of any content that reads
      "x.      ab." there. */
  lemma AbOccursAt8(content: string)
    requires |content| > 10 && content[7] == ' ' && content[8] == 'a' && content[9] == 'b' && content[10] == '.'
    ensures OccursAt(content, "ab", 8)
  {
    OccursHere(content, "ab", 8);
  }

  /** With '!' missing after the match, the forward boundary is the end of
      the content, the stripped sentence is "ab. no", and the shifted
      window reaches the "no" of the next sentence. */
  lemma ForwardBoundaryMissing()
    ensures OccursAt("x.      ab. no", "ab", 8)
    ensures MatchNegated("x.      ab. no", "ab", 8)
  {
    var content := "x.      ab. no";
    AbOccursAt8(content);
    SentenceStartAfterX(content);
    SentenceEndWithoutBang();
    assert content[2..14] == "      ab. no";
    StripBeforeAbNo();
    assert PartBeforeKeyword(content, 8, 10) == Lower("ab. no");
    assert Lower("ab. no") == "ab. no";
    assert SubstringAt("ab. no", "no", 4);
    assert Contains("ab. no", "no");
    assert "no" in NegationWords;
  }

  /** Appending "!?" gives all three terminators after the match, so the
      sentence ends at the '.' right after "ab" and the same match is no
      longer negated: the forward boundary decides the outcome. */
  lemma ForwardBoundaryPresent()
    ensures OccursAt("x.      ab. no!?", "ab", 8)
    ensures !MatchNegated("x.      ab. no!?", "ab", 8)
  {
    var content := "x.      ab. no!?";
    AbOccursAt8(content);
    SentenceStartAfterX(content);
    SentenceEndWithAllThree();
    assert content[2..11] == "      ab.";
    StripBeforeAb();
    assert PartBeforeKeyword(content, 8, 10) == Lower("ab.");
    assert Lower("ab.") == "ab.";
    NoNegationInShortText("ab.");
  }

  // ----- Single-match contents and the reciprocal rank -----

  /** A whole-word occurrence starts with the keyword's first letter, up to
      case. */
  lemma OccurrenceStartsWithFirstLetter(content: string, keyword: string, m: nat)
    requires |keyword| > 0 && OccursAt(content, keyword, m)
    ensures LowerChar(content[m]) == LowerChar(keyword[0])
  {
    assert content[m..m + |keyword|][0] == content[m];
  }

  /** When the keyword's first letter appears (up to case) only at `p` and
      the keyword occurs there, `finditer` reports exactly that match. */
  lemma OnlyMatch(content: string, keyword: string, p: nat)
    requires |keyword| > 0 && OccursAt(content, keyword, p)
    requires forall m :: 0 <= m < |content| && LowerChar(content[m]) == LowerChar(keyword[0]) ==> m == p
    ensures Matches(content, keyword) == [p]
  {
    var ms := Matches(content, keyword);
    MatchesSound(content, keyword);
    MatchesComplete(content, keyword, p);
    forall j | 0 <= j < |ms|
      ensures ms[j] == p
    {
      OccurrenceStartsWithFirstLetter(content, keyword, ms[j]);
    }
    if |ms| > 1 {
      FirstTwoApart(ms, Step(keyword));
      assert false;
    }
  }

  /** In a list of positions each at least `step` past the one before, the
      first two differ. */
  lemma FirstTwoApart(ms: seq<nat>, step: nat)
    requires step > 0 && |ms| > 1
    requires forall i, j :: 0 <= i < j < |ms| ==> ms[i] + step <= ms[j]
    ensures ms[0] < ms[1]
  {
  }

  /** When the keyword's first letter does not appear at all (up to case),
      `finditer` reports nothing. */
  lemma NoMatch(content: string, keyword: string)
    requires |keyword| > 0
    requires forall m :: 0 <= m < |content| ==> LowerChar(content[m]) != LowerChar(keyword[0])
    ensures Matches(content, keyword) == []
  {
    forall m: nat
      ensures !OccursAt(content, keyword, m)
    {
      if OccursAt(content, keyword, m) {
        OccurrenceStartsWithFirstLetter(content, keyword, m);
      }
    }
    NoMatchesIffNoOccurrence(content, keyword);
  }

  /** Every negation word opens with "no", "ne", "la", "ab" or "wi". */
  predicate OpensNegation(a: char, b: char) {
    (a == 'n' && (b == 'o' || b == 'e')) || (a == 'l' && b == 'a') || (a == 'a' && b == 'b') || (a == 'w' && b == 'i')
  }

  /** A text in which no two adjacent characters open a negation word holds
      no negation word. */
  lemma NoNegationWithoutOpening(part: string)
    requires forall i :: 0 <= i < |part| - 1 ==> !OpensNegation(part[i], part[i + 1])
    ensures !HasNegation(part)
  {
    forall w | w in NegationWords
      ensures !Contains(part, w)
    {
      forall i: nat | i <= |part|
        ensures !SubstringAt(part, w, i)
      {
        if i + |w| <= |part| {
          assert |w| >= 2 && OpensNegation(w[0], w[1]);
          var window := part[i..i + |w|];
          assert window[0] == part[i] && window[1] == part[i + 1];
        }
      }
    }
  }

  /** A result with the given content and no other data. */
  function Doc(content: string): RetrievedChunk {
    RetrievedChunk("", content, 0.0, "", "", "", 1)
  }

  /** When the keyword's only match is at `p`, in a first sentence that
      does not start with whitespace, the keyword qualifies exactly when the
      lower-cased text before the match holds no negation word. */
  lemma SingleMatchInFirstSentence(content: string, keyword: string, p: nat)
    requires |keyword| > 0 && OccursAt(content, keyword, p)
    requires forall m :: 0 <= m < |content| && LowerChar(content[m]) == LowerChar(keyword[0]) ==> m == p
    requires forall j :: 0 <= j < p ==> !IsTerminator(content[j])
    requires !IsSpace(content[0]) && !IsSpace(content[p])
    ensures KeywordQualifies(content, keyword) <==> !HasNegation(Lower(content[..p]))
  {
    OnlyMatch(content, keyword, p);
    QualifiesWithOneMatch(content, keyword, p);
    FirstSentenceStart(content, p);
    PartBeforeWithoutLeadingSpace(content, p, p + |keyword|);
    assert content[0..p] == content[..p];
  }

  /** With a single match, the keyword qualifies exactly when that match is
      not negated. */
  lemma QualifiesWithOneMatch(content: string, keyword: string, p: nat)
    requires Matches(content, keyword) == [p] && p + |keyword| <= |content|
    ensures KeywordQualifies(content, keyword) <==> !MatchNegated(content, keyword, p)
  {
    assert Matches(content, keyword)[0] == p;
  }

  /** With no terminator before `p`, the sentence around `p` starts at 0. */
  lemma FirstSentenceStart(content: string, p: nat)
    requires p <= |content|
    requires forall j :: 0 <= j < p ==> !IsTerminator(content[j])
    ensures SentenceStart(content, p) == 0
  {
    SentenceStartSpec(content, p);
  }

  /** A match of `keyword` at `p`, checked one character at a time. */
  lemma OccursHere(content: string, keyword: string, p: nat)
    requires p + |keyword| <= |content|
    requires forall j :: 0 <= j < |keyword| ==> LowerChar(content[p + j]) == LowerChar(keyword[j])
    requires p == 0 || !IsWordChar(content[p - 1])
    requires p + |keyword| == |content| || !IsWordChar(content[p + |keyword|])
    requires |keyword| > 0 && IsWordChar(keyword[0]) && IsWordChar(keyword[|keyword| - 1])
    ensures OccursAt(content, keyword, p)
  {
    var slice := content[p..p + |keyword|];
    EqualIgnoringCaseIffLower(slice, keyword);
    assert Lower(slice) == Lower(keyword) by {
      forall j | 0 <= j < |keyword|
        ensures Lower(slice)[j] == Lower(keyword)[j]
      {
        assert slice[j] == content[p + j];
      }
    }
    assert IsWordChar(slice[0]) == IsWordChar(keyword[0]) by {
      assert LowerChar(slice[0]) == LowerChar(keyword[0]);
    }
    assert IsWordChar(slice[|keyword| - 1]) == IsWordChar(keyword[|keyword| - 1]) by {
      assert LowerChar(slice[|keyword| - 1]) == LowerChar(keyword[|keyword| - 1]);
    }
  }

  /** Text that holds neither the letter `c` (up to case) nor a sentence
      terminator. */
  predicate Plain(s: string, c: char) {
    forall i :: 0 <= i < |s| ==> LowerChar(s[i]) != c && !IsTerminator(s[i])
  }

  /** Text in which no two adjacent characters, lower-cased, open a negation
      word. */
  predicate NoOpeningIn(s: string) {
    forall i :: 0 <= i < |s| - 1 ==> !OpensNegation(LowerChar(s[i]), LowerChar(s[i + 1]))
  }

  lemma PlainConcat(a: string, b: string, c: char)
    requires Plain(a, c) && Plain(b, c)
    ensures Plain(a + b, c)
  {
    forall i | 0 <= i < |a + b|
      ensures LowerChar((a + b)[i]) != c && !IsTerminator((a + b)[i])
    {
      if i < |a| {
        assert (a + b)[i] == a[i];
      } else {
        assert (a + b)[i] == b[i - |a|];
      }
    }
  }

  /** Joining at a space keeps text free of negation openings. */
  lemma NoOpeningConcat(a: string, b: string)
    requires NoOpeningIn(a) && NoOpeningIn(b) && |a| > 0 && a[|a| - 1] == ' '
    ensures NoOpeningIn(a + b)
  {
    forall i | 0 <= i < |a + b| - 1
      ensures !OpensNegation(LowerChar((a + b)[i]), LowerChar((a + b)[i + 1]))
    {
      if i + 1 < |a| {
        assert (a + b)[i] == a[i] && (a + b)[i + 1] == a[i + 1];
      } else if i + 1 == |a| {
        assert (a + b)[i] == ' ';
      } else {
        assert (a + b)[i] == b[i - |a|] && (a + b)[i + 1] == b[i + 1 - |a|];
      }
    }
  }

  /** A lower-case negation word inside the text makes the lower-cased text
      negated. */
  lemma NegationWordInside(a: string, w: string, b: string)
    requires w in NegationWords && Lower(w) == w
    ensures HasNegation(Lower(a + w + b))
  {
    var part := Lower(a + w + b);
    assert part[|a|..|a| + |w|] == w by {
      forall j | 0 <= j < |w|
        ensures part[|a| + j] == w[j]
      {
        assert (a + w + b)[|a| + j] == w[j];
        assert LowerChar(w[j]) == Lower(w)[j];
      }
    }
    assert SubstringAt(part, w, |a|);
  }

  /** When a plain first sentence part `prefix` is followed by a match of
      `keyword` whose first letter does not recur, the keyword qualifies
      exactly when the lower-cased `prefix` holds no negation word. */
  lemma QualifiesAfterPlainPrefix(prefix: string, rest: string, keyword: string)
    requires |keyword| > 0 && Plain(prefix, LowerChar(keyword[0]))
    requires forall m :: 0 < m < |rest| ==> LowerChar(rest[m]) != LowerChar(keyword[0])
    requires OccursAt(prefix + rest, keyword, |prefix|)
    requires |prefix| > 0 && !IsSpace(prefix[0]) && |rest| > 0 && !IsSpace(rest[0])
    ensures KeywordQualifies(prefix + rest, keyword) <==> !HasNegation(Lower(prefix))
  {
    var content := prefix + rest;
    var p := |prefix|;
    forall m | 0 <= m < |content| && LowerChar(content[m]) == LowerChar(keyword[0])
      ensures m == p
    {
    }
    forall j | 0 <= j < p
      ensures !IsTerminator(content[j])
    {
      assert content[j] == prefix[j];
    }
    SingleMatchInFirstSentence(content, keyword, p);
    assert content[..p] == prefix;
  }

  // One lemma per word keeps each literal's adjacent-pair check small.
  lemma NoOpeningThis() ensures NoOpeningIn("This ") {}
  lemma NoOpeningDocument() ensures NoOpeningIn("document ") {}
  lemma NoOpeningContains() ensures NoOpeningIn("contains ") {}
  lemma NoOpeningThe() ensures NoOpeningIn("the ") {}
  lemma NoOpeningExpected() ensures NoOpeningIn("expected ") {}

  /** "This document contains the expected " has no 'k', no terminator and
      no negation opening. */
  lemma StatedPrefixFacts(prefix: string)
    requires prefix == "This " + "document " + "contains " + "the " + "expected "
    ensures Plain(prefix, 'k') && NoOpeningIn(prefix)
    ensures prefix[0] == 'T' && prefix[|prefix| - 1] == ' '
  {
    var a1 := "This ";
    var a2 := a1 + "document ";
    var a3 := a2 + "contains ";
    var a4 := a3 + "the ";
    assert Plain("This ", 'k') && Plain("document ", 'k') && Plain("contains ", 'k');
    assert Plain("the ", 'k') && Plain("expected ", 'k');
    PlainConcat(a1, "document ", 'k');
    PlainConcat(a2, "contains ", 'k');
    PlainConcat(a3, "the ", 'k');
    PlainConcat(a4, "expected ", 'k');
    NoOpeningThis();
    NoOpeningDocument();
    NoOpeningContains();
    NoOpeningThe();
    NoOpeningExpected();
    NoOpeningConcat(a1, "document ");
    NoOpeningConcat(a2, "contains ");
    NoOpeningConcat(a3, "the ");
    NoOpeningConcat(a4, "expected ");
  }

  /** A keyword written out right after a prefix that ends in a space, and
      followed by a non-word character or by nothing, occurs there. */
  lemma OccursAfterSpace(prefix: string, keyword: string, tail: string)
    requires |prefix| > 0 && prefix[|prefix| - 1] == ' '
    requires |keyword| > 0 && IsWordChar(keyword[0]) && IsWordChar(keyword[|keyword| - 1])
    requires tail == [] || !IsWordChar(tail[0])
    ensures OccursAt(prefix + (keyword + tail), keyword, |prefix|)
  {
    var content := prefix + (keyword + tail);
    var p := |prefix|;
    forall j | 0 <= j < |keyword|
      ensures LowerChar(content[p + j]) == LowerChar(keyword[j])
    {
      assert content[p + j] == keyword[j];
    }
    assert content[p - 1] == ' ';
    if tail != [] {
      assert content[p + |keyword|] == tail[0];
    }
    OccursHere(content, keyword, p);
  }

  /** A keyword written out after a prefix that ends in a space, where the
      prefix holds neither a terminator nor the keyword's first letter and
      the text after that letter does not repeat it, qualifies exactly when
      the lower-cased prefix holds no negation word. */
  lemma WordAfter(prefix: string, keyword: string, tail: string)
    requires |prefix| > 0 && !IsSpace(prefix[0]) && prefix[|prefix| - 1] == ' '
    requires |keyword| > 0 && IsWordChar(keyword[0]) && IsWordChar(keyword[|keyword| - 1])
    requires !IsSpace(keyword[0])
    requires tail == [] || !IsWordChar(tail[0])
    requires Plain(prefix, LowerChar(keyword[0]))
    requires forall m :: 0 < m < |keyword + tail| ==> LowerChar((keyword + tail)[m]) != LowerChar(keyword[0])
    ensures KeywordQualifies(prefix + (keyword + tail), keyword) <==> !HasNegation(Lower(prefix))
  {
    OccursAfterSpace(prefix, keyword, tail);
    QualifiesAfterPlainPrefix(prefix, keyword + tail, keyword);
  }

  lemma StatedWords(content: string)
    requires content == "This document contains the expected keyword."
    ensures content == "This " + "document " + "contains " + "the " + "expected " + "keyword."
  {
  }

  /** "keyword" in "This document contains the expected keyword." is its only
      match, and nothing before it is negated: the keyword qualifies. */
  lemma KeywordStated(content: string)
    requires content == "This document contains the expected keyword."
    ensures KeywordQualifies(content, "keyword")
  {
    var prefix := "This " + "document " + "contains " + "the " + "expected ";
    StatedWords(content);
    StatedPrefixFacts(prefix);
    NoNegationWithoutOpening(Lower(prefix));
    assert "keyword." == "keyword" + ".";
    WordAfter(prefix, "keyword", ".");
  }

  /** "This document does not contain the " has no 'k' and no terminator,
      and its lower-cased form holds "not". */
  lemma NegatedPrefixFacts(prefix: string)
    requires prefix == "This " + "document " + "does " + "not" + " contain the "
    ensures Plain(prefix, 'k') && HasNegation(Lower(prefix))
    ensures prefix[0] == 'T' && prefix[|prefix| - 1] == ' '
  {
    var a1 := "This ";
    var a2 := a1 + "document ";
    var a3 := a2 + "does ";
    var a4 := a3 + "not";
    assert Plain("This ", 'k') && Plain("document ", 'k') && Plain("does ", 'k');
    assert Plain("not", 'k') && Plain(" contain the ", 'k');
    PlainConcat(a1, "document ", 'k');
    PlainConcat(a2, "does ", 'k');
    PlainConcat(a3, "not", 'k');
    PlainConcat(a4, " contain the ", 'k');
    assert Lower("not") == "not" && "not" in NegationWords;
    NegationWordInside(a3, "not", " contain the ");
  }

  lemma NegatedWords(content: string)
    requires content == "This document does not contain the keyword."
    ensures content == "This " + "document " + "does " + "not" + " contain the " + "keyword."
  {
  }

  /** In "This document does not contain the keyword." the only match of
      "keyword" follows "not" in its sentence: the keyword does not
      qualify. */
  lemma KeywordNegated(content: string)
    requires content == "This document does not contain the keyword."
    ensures !KeywordQualifies(content, "keyword")
  {
    var prefix := "This " + "document " + "does " + "not" + " contain the ";
    NegatedWords(content);
    NegatedPrefixFacts(prefix);
    assert "keyword." == "keyword" + ".";
    WordAfter(prefix, "keyword", ".");
  }


  /** With one keyword, a result is strictly relevant exactly when that
      keyword qualifies in its content. */
  lemma RelevantForOneKeyword(content: string, keyword: string)
    ensures StrictRelevant(content, [keyword]) <==> KeywordQualifies(content, keyword)
  {
    assert [keyword][0] == keyword;
  }

  /** The relevant document first: a reciprocal rank of 1.0. */
  lemma MrrPerfectRanking(results: seq<RetrievedChunk>)
    requires results == [Doc("This document contains the expected keyword."),
                         Doc("This document does not contain the keyword.")]
    ensures ReciprocalRank(results, ["keyword"]) == 1.0
  {
    KeywordStated(results[0].content);
    RelevantForOneKeyword(results[0].content, "keyword");
    ReciprocalRankSpec(results, ["keyword"], 0);
    assert Reciprocal(0) == 1.0;
  }

  /** The relevant document second, after one that negates the keyword: a
      reciprocal rank of 0.5. */
  lemma MrrSecondPosition(results: seq<RetrievedChunk>)
    requires results == [Doc("This document does not contain the keyword."),
                         Doc("This document contains the expected keyword."),
                         Doc("Another irrelevant document.")]
    ensures ReciprocalRank(results, ["keyword"]) == 0.5
  {
    KeywordNegated(results[0].content);
    KeywordStated(results[1].content);
    RelevantSecond(results, "keyword");
  }

  /** With one keyword that fails in the first result and qualifies in the
      second, the reciprocal rank is 0.5. */
  lemma RelevantSecond(results: seq<RetrievedChunk>, keyword: string)
    requires |results| > 1
    requires !KeywordQualifies(results[0].content, keyword)
    requires KeywordQualifies(results[1].content, keyword)
    ensures ReciprocalRank(results, [keyword]) == 0.5
  {
    RelevantForOneKeyword(results[0].content, keyword);
    RelevantForOneKeyword(results[1].content, keyword);
    assert forall j :: 0 <= j < 1 ==> !StrictRelevant(results[j].content, [keyword]);
    ReciprocalRankSpec(results, [keyword], 1);
    assert Reciprocal(1) == 1.0 / 2.0;
  }

  /** "Neither does this one." holds no 'k' at all, so "keyword" never
      matches in it. */
  lemma KeywordAbsent(content: string)
    requires content == "Neither does this one."
    ensures Matches(content, "keyword") == []
  {
    NoMatch(content, "keyword");
  }

  /** A document that negates the keyword and one without it: a reciprocal
      rank of 0.0. */
  lemma MrrNoRelevantFound(results: seq<RetrievedChunk>)
    requires results == [Doc("This document does not contain the keyword."),
                         Doc("Neither does this one.")]
    ensures ReciprocalRank(results, ["keyword"]) == 0.0
  {
    KeywordNegated(results[0].content);
    KeywordAbsent(results[1].content);
    RelevantForOneKeyword(results[0].content, "keyword");
    RelevantForOneKeyword(results[1].content, "keyword");
    ReciprocalRankZero(results, ["keyword"]);
  }

  lemma CatNegatedWords(content: string)
    requires content == "There is no cat here."
    ensures content == "There " + "is " + "no " + ("cat" + " here.")
  {
  }

  /** "There is no cat here.": the only match of "cat" follows "no". */
  lemma CatNegated(content: string)
    requires content == "There is no cat here."
    ensures !KeywordQualifies(content, "cat")
  {
    var prefix := "There " + "is " + "no ";
    CatNegatedWords(content);
    assert Plain("There ", 'c') && Plain("is ", 'c') && Plain("no ", 'c');
    PlainConcat("There ", "is ", 'c');
    PlainConcat("There " + "is ", "no ", 'c');
    assert Lower("no") == "no" && "no" in NegationWords;
    NegationWordInside("There " + "is ", "no", " ");
    assert prefix == "There " + "is " + "no" + " ";
    WordAfter(prefix, "cat", " here.");
  }

  lemma CatBeforeNegationWords(content: string)
    requires content == "The cat sleeps. It is not a dog."
    ensures content == "The " + ("cat" + (" sleeps." + " It is not a dog."))
  {
  }

  /** "The cat sleeps. It is not a dog.": the match of "cat" qualifies
      because the "not" comes after it. With '!' and '?' absent, the
      sentence runs to the end of the content, and only the text before the
      match is examined. */
  lemma CatBeforeNegation(content: string)
    requires content == "The cat sleeps. It is not a dog."
    ensures KeywordQualifies(content, "cat")
  {
    CatBeforeNegationWords(content);
    assert Plain("The ", 'c') && NoOpeningIn("The ");
    NoNegationWithoutOpening(Lower("The "));
    WordAfter("The ", "cat", " sleeps." + " It is not a dog.");
  }

  /** Recall is not capped at 1.0: two results holding the one expected
      keyword give a recall of 2.0. */
  lemma RecallAboveOne(results: seq<RetrievedChunk>)
    requires results == [Doc("a"), Doc("a")]
    ensures RecallAtK(results, ["a"], 5, TotalRelevant(["a"])) == 2.0
  {
    var flags := CoarseFlags(results, ["a"]);
    forall i | 0 <= i < 2
      ensures flags[i]
    {
      assert results[i].content == "a" && ["a"][0] == "a";
      assert Lower("a") == "a";
      assert SubstringAt(Lower(results[i].content), Lower(["a"][0]), 0);
    }
    assert CountTrue(flags, 2) == 2 by {
      CountTrueAll(flags, 2);
    }
  }
}
