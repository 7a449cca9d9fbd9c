/**
 * The therapy-area classifier, `matches_therapy_area(entry_text, keywords)`:
 * a keyword that normalises to several tokens is looked for as a phrase
 * (a contiguous substring of the normalised text); any other keyword is
 * looked for, whole, among the text's whitespace-separated tokens.
 */
module Classifier {
  import opened Text

  /** The test the keyword loop makes for one keyword, against the text
      already normalised (`clean_text`) and split (`words`). Note that the
      single-token branch compares the whole normalised keyword, surrounding
      whitespace included, with the tokens. */
  predicate KeywordHit(cleanText: string, words: seq<string>, keyword: string) {
    var keywordClean := Normalize(keyword);
    if |Split(keywordClean)| > 1 then Contains(cleanText, keywordClean)
    else keywordClean in words
  }

  /** The keyword loop: stops with true at the first keyword that hits, and
      gives false when the keywords run out. */
  predicate AnyKeywordHits(cleanText: string, words: seq<string>, keywords: seq<string>)
    decreases |keywords|
  {
    if keywords == [] then false
    else if KeywordHit(cleanText, words, keywords[0]) then true
    else AnyKeywordHits(cleanText, words, keywords[1..])
  }

  /** `matches_therapy_area(entry_text, keywords)`. */
  predicate MatchesTherapyArea(entryText: string, keywords: seq<string>) {
    var cleanText := Normalize(entryText);
    AnyKeywordHits(cleanText, Split(cleanText), keywords)
  }

  /** Whether one keyword on its own matches the text. */
  predicate KeywordMatches(entryText: string, keyword: string) {
    var cleanText := Normalize(entryText);
    KeywordHit(cleanText, Split(cleanText), keyword)
  }

  lemma {:induction false} AnyKeywordHitsIff(cleanText: string, words: seq<string>, keywords: seq<string>)
    ensures AnyKeywordHits(cleanText, words, keywords)
        <==> exists i :: 0 <= i < |keywords| && KeywordHit(cleanText, words, keywords[i])
    decreases |keywords|
  {
    if keywords != [] {
      AnyKeywordHitsIff(cleanText, words, keywords[1..]);
      if exists i :: 0 <= i < |keywords[1..]| && KeywordHit(cleanText, words, keywords[1..][i]) {
        var i :| 0 <= i < |keywords[1..]| && KeywordHit(cleanText, words, keywords[1..][i]);
        assert keywords[1..][i] == keywords[i + 1];
      }
      if exists i :: 0 <= i < |keywords| && KeywordHit(cleanText, words, keywords[i]) {
        var i :| 0 <= i < |keywords| && KeywordHit(cleanText, words, keywords[i]);
        if i > 0 {
          assert keywords[1..][i - 1] == keywords[i];
        }
      }
    }
  }

  /** A text matches a keyword list exactly when at least one keyword of the
      list matches it; in particular an empty list never matches. The early
      return only decides when the loop stops, not what it answers. */
  lemma MatchesIffSomeKeyword(entryText: string, keywords: seq<string>)
    ensures MatchesTherapyArea(entryText, keywords)
        <==> exists i :: 0 <= i < |keywords| && KeywordMatches(entryText, keywords[i])
  {
    var cleanText := Normalize(entryText);
    AnyKeywordHitsIff(cleanText, Split(cleanText), keywords);
  }

  /** The answer depends only on which keywords are listed: reordering or
      repeating keywords changes nothing. */
  lemma MatchesIgnoresOrder(entryText: string, keywords: seq<string>, others: seq<string>)
    requires forall k :: k in keywords <==> k in others
    ensures MatchesTherapyArea(entryText, keywords) == MatchesTherapyArea(entryText, others)
  {
    MatchesIffSomeKeyword(entryText, keywords);
    MatchesIffSomeKeyword(entryText, others);
    if MatchesTherapyArea(entryText, keywords) {
      var i :| 0 <= i < |keywords| && KeywordMatches(entryText, keywords[i]);
      assert keywords[i] in others;
      var j :| 0 <= j < |others| && others[j] == keywords[i];
    }
    if MatchesTherapyArea(entryText, others) {
      var j :| 0 <= j < |others| && KeywordMatches(entryText, others[j]);
      assert others[j] in keywords;
      var i :| 0 <= i < |keywords| && keywords[i] == others[j];
    }
  }

  /** A keyword that normalises to no token at all (empty, all punctuation or
      all whitespace) never matches: it is not a phrase, and `split()` never
      yields an empty or whitespace token for it to equal. */
  lemma NoTokenKeywordNeverMatches(entryText: string, keyword: string)
    requires Split(Normalize(keyword)) == []
    ensures !KeywordMatches(entryText, keyword)
  {
    var keywordClean := Normalize(keyword);
    var cleanText := Normalize(entryText);
    SplitEmptyIff(keywordClean);
    SplitTokens(cleanText);
  }

  /** A keyword that normalises to one bare token matches exactly when that
      token occurs in the normalised text as a whole word, so a short keyword
      is never found inside a longer word. */
  lemma SingleTokenMatchesWholeWord(entryText: string, keyword: string)
    requires IsToken(Normalize(keyword))
    ensures KeywordMatches(entryText, keyword)
        <==> IsWholeWord(Normalize(keyword), Normalize(entryText))
  {
    var keywordClean := Normalize(keyword);
    SplitJoinSpaced([keywordClean]);
    SplitMemberIff(keywordClean, Normalize(entryText));
  }

  /** A keyword whose normalised form is one token with whitespace before or
      after it (for instance "ms " or "ms -") never matches: the code compares
      the whole normalised keyword, whitespace included, with the tokens. */
  lemma PaddedSingleTokenNeverMatches(entryText: string, keyword: string)
    requires |Split(Normalize(keyword))| == 1
    requires !IsToken(Normalize(keyword))
    ensures !KeywordMatches(entryText, keyword)
  {
    SplitTokens(Normalize(entryText));
  }

  /** A keyword that normalises to two or more tokens matches exactly when its
      normalised form occurs in the normalised text as a contiguous substring:
      whitespace inside it must agree character for character and no word
      boundary is required at either end. */
  lemma PhraseMatchesSubstring(entryText: string, keyword: string)
    requires |Split(Normalize(keyword))| > 1
    ensures KeywordMatches(entryText, keyword)
        <==> IsSubstring(Normalize(keyword), Normalize(entryText))
  {
    ContainsIff(Normalize(entryText), Normalize(keyword));
  }

  /** A keyword that matches either of two texts matches them joined by a space,
      as the fetch loop joins a title and a summary. */
  lemma KeywordMatchesJoin(a: string, b: string, keyword: string)
    requires KeywordMatches(a, keyword) || KeywordMatches(b, keyword)
    ensures KeywordMatches(a + " " + b, keyword)
  {
    var keywordClean := Normalize(keyword);
    NormalizeJoin(a, b);
    if |Split(keywordClean)| > 1 {
      PhraseMatchesSubstring(a, keyword);
      PhraseMatchesSubstring(b, keyword);
      PhraseMatchesSubstring(a + " " + b, keyword);
      SubstringOfJoin(keywordClean, Normalize(a), Normalize(b));
    } else {
      if KeywordMatches(a, keyword) {
        SplitTokens(Normalize(a));
      } else {
        SplitTokens(Normalize(b));
      }
      SingleTokenMatchesWholeWord(a, keyword);
      SingleTokenMatchesWholeWord(b, keyword);
      SingleTokenMatchesWholeWord(a + " " + b, keyword);
      WholeWordOfJoin(keywordClean, Normalize(a), Normalize(b));
    }
  }

  /** A keyword list that matches a title, or a summary, matches the text the
      fetch loop builds from them. */
  lemma MatchesJoin(a: string, b: string, keywords: seq<string>)
    requires MatchesTherapyArea(a, keywords) || MatchesTherapyArea(b, keywords)
    ensures MatchesTherapyArea(a + " " + b, keywords)
  {
    MatchesIffSomeKeyword(a, keywords);
    MatchesIffSomeKeyword(b, keywords);
    MatchesIffSomeKeyword(a + " " + b, keywords);
    var i :| 0 <= i < |keywords| && (KeywordMatches(a, keywords[i]) || KeywordMatches(b, keywords[i]));
    KeywordMatchesJoin(a, b, keywords[i]);
  }
}

/** Worked cases of the classifier on concrete texts. Each lemma takes its
    texts as parameters fixed by its precondition. */
module ClassifierExamples {
  import opened Text
  import opened Classifier

  /** The phrase example texts are lower-case words and spaces only, so
      they normalise to themselves. */
  lemma NormalPhraseText(text: string)
    requires || text == "multiple sclerosis update"
             || text == "multiple reports of sclerosis"
             || text == "multiple  sclerosis"
    ensures Normalize(text) == text
  {
    assert IsNormal(text);
    NormalizeOfNormal(text);
  }

  /** The keyword "ms" normalises to the single bare token "ms". */
  lemma MsIsToken(keyword: string)
    requires keyword == "ms"
    ensures Normalize(keyword) == keyword && IsToken(keyword) && Split(keyword) == [keyword]
  {
    JoinSpacedNormalizeSplit([keyword]);
  }

  /** "ms" matches "ms treatment options", where it is a word of its own. */
  lemma WholeWordExample(text: string)
    requires text == "ms treatment options"
    ensures MatchesTherapyArea(text, ["ms"])
  {
    var words := ["ms", "treatment", "options"];
    assert text == JoinSpaced(words);
    JoinSpacedNormalizeSplit(words);
    MsIsToken("ms");
    MatchesIffSomeKeyword(text, ["ms"]);
  }

  /** "ms" does not match "cramps are common". */
  lemma NotInsideWordExample(text: string)
    requires text == "cramps are common"
    ensures !MatchesTherapyArea(text, ["ms"])
  {
    var words := ["cramps", "are", "common"];
    assert text == JoinSpaced(words);
    JoinSpacedNormalizeSplit(words);
    MsIsToken("ms");
    MatchesIffSomeKeyword(text, ["ms"]);
  }

  /** "ms" does not match "symptoms persist" either, although the text
      contains it inside a longer word. */
  lemma SubstringIsNotWordExample(text: string)
    requires text == "symptoms persist"
    ensures !MatchesTherapyArea(text, ["ms"]) && Contains(text, "ms")
  {
    var words := ["symptoms", "persist"];
    assert text == JoinSpaced(words);
    JoinSpacedNormalizeSplit(words);
    MsIsToken("ms");
    MatchesIffSomeKeyword(text, ["ms"]);
    assert OccursAt(text, "ms", 6);
    ContainsIff(text, "ms");
  }

  /** "multiple sclerosis" normalises to itself and is a two-word phrase. */
  lemma MultipleSclerosisIsPhrase(phrase: string)
    requires phrase == "multiple sclerosis"
    ensures Normalize(phrase) == phrase && |Split(phrase)| == 2
  {
    var words := ["multiple", "sclerosis"];
    assert phrase == JoinSpaced(words);
    JoinSpacedNormalizeSplit(words);
  }

  /** "multiple sclerosis" matches "multiple sclerosis update" as a phrase. */
  lemma PhraseExample(text: string, phrase: string)
    requires text == "multiple sclerosis update" && phrase == "multiple sclerosis"
    ensures MatchesTherapyArea(text, [phrase])
  {
    MultipleSclerosisIsPhrase(phrase);
    NormalPhraseText(text);
    PhraseAtStart(text, phrase);
    PhraseMatchesSubstring(text, phrase);
    MatchesIffSomeKeyword(text, [phrase]);
  }

  lemma PhraseAtStart(text: string, phrase: string)
    requires text == "multiple sclerosis update" && phrase == "multiple sclerosis"
    ensures IsSubstring(phrase, text)
  {
    forall k | 0 <= k < |phrase| ensures text[k] == phrase[k] { }
    assert text[..|phrase|] == phrase;
    assert OccursAt(text, phrase, 0);
  }

  /** "multiple sclerosis" does not match "multiple reports of sclerosis",
      where its words stand apart. */
  lemma ScatteredPhraseExample(text: string, phrase: string)
    requires text == "multiple reports of sclerosis" && phrase == "multiple sclerosis"
    ensures !MatchesTherapyArea(text, [phrase])
  {
    MultipleSclerosisIsPhrase(phrase);
    NormalPhraseText(text);
    PhraseMatchesSubstring(text, phrase);
    ScatteredPhraseAbsent(text, phrase);
    MatchesIffSomeKeyword(text, [phrase]);
  }

  lemma ScatteredPhraseAbsent(text: string, phrase: string)
    requires text == "multiple reports of sclerosis" && phrase == "multiple sclerosis"
    ensures !IsSubstring(phrase, text)
  {
    assert text[9] != phrase[9];
    forall i | 0 < i <= |text| - |phrase| ensures text[i] != phrase[0] {
    }
    forall i | 0 <= i <= |text| - |phrase| ensures !OccursAt(text, phrase, i) {
      assert text[i..i + |phrase|][0] == text[i];
      assert i == 0 ==> text[i..i + |phrase|][9] == text[9];
    }
  }

  /** A phrase needs no word boundary: "ple scler" matches "multiple sclerosis". */
  lemma PartialWordPhraseExample(text: string, phrase: string)
    requires text == "multiple sclerosis" && phrase == "ple scler"
    ensures MatchesTherapyArea(text, [phrase])
  {
    MultipleSclerosisIsPhrase(text);
    PartialWordSplit(phrase);
    PartialWordOccurs(text, phrase);
    PhraseMatchesSubstring(text, phrase);
    MatchesIffSomeKeyword(text, [phrase]);
  }

  lemma PartialWordOccurs(text: string, phrase: string)
    requires text == "multiple sclerosis" && phrase == "ple scler"
    ensures IsSubstring(phrase, text)
  {
    forall k | 0 <= k < |phrase| ensures text[5 + k] == phrase[k] { }
    assert text[5..5 + |phrase|] == phrase;
    assert OccursAt(text, phrase, 5);
  }

  lemma PartialWordSplit(phrase: string)
    requires phrase == "ple scler"
    ensures Normalize(phrase) == phrase && |Split(phrase)| == 2
  {
    var words := ["ple", "scler"];
    assert phrase == JoinSpaced(words);
    JoinSpacedNormalizeSplit(words);
  }

  /** Whitespace inside a phrase is not collapsed: "multiple sclerosis" does
      not match "multiple  sclerosis" written with two spaces. */
  lemma PhraseWhitespaceExample(text: string, phrase: string)
    requires text == "multiple  sclerosis" && phrase == "multiple sclerosis"
    ensures !MatchesTherapyArea(text, [phrase])
  {
    MultipleSclerosisIsPhrase(phrase);
    NormalPhraseText(text);
    PhraseMatchesSubstring(text, phrase);
    DoubleSpacedPhraseAbsent(text, phrase);
    MatchesIffSomeKeyword(text, [phrase]);
  }

  lemma DoubleSpacedPhraseAbsent(text: string, phrase: string)
    requires text == "multiple  sclerosis" && phrase == "multiple sclerosis"
    ensures !IsSubstring(phrase, text)
  {
    assert text[9] != phrase[9];
    assert text[1] != phrase[0];
    forall i | 0 <= i <= |text| - |phrase| ensures !OccursAt(text, phrase, i) {
      assert text[i..i + |phrase|][0] == text[i];
      assert i == 0 ==> text[i..i + |phrase|][9] == text[9];
    }
  }

  /** The keywords "", "--" and "ms -" match nothing, not even "ms treatment options". */
  lemma DegenerateKeywordExample(text: string)
    requires text == "ms treatment options"
    ensures !MatchesTherapyArea(text, ["", "--", "ms -"])
  {
    assert Normalize("") == [] && Normalize("--") == [];
    NoTokenKeywordNeverMatches(text, "");
    NoTokenKeywordNeverMatches(text, "--");
    assert Normalize("ms -") == "ms ";
    assert "ms " == "ms" + [' '];
    assert Split("ms ") == ["ms"];
    assert !IsSpace('s');
    PaddedSingleTokenNeverMatches(text, "ms -");
    MatchesIffSomeKeyword(text, ["", "--", "ms -"]);
  }
}
