/**
 * The reply format the prompt asks for: a first line `Score: XX`, then `Missing Keywords:`
 * followed by the comma-separated keywords, then `Suggestions:` followed by the suggestion
 * lines. A reply in that format is parsed back into exactly its three parts.
 */
module ReplyFormat {
  import opened Wrappers
  import opened JsText
  import opened ResponseParser

  /** Item 1 of the prompt: the score on a line of its own. */
  function ScoreLine(score: nat): string
  {
    ScoreMarker + Decimal(score) + "\n"
  }

  /** A reply laid out as items 1 to 3 of the prompt ask. */
  function FormattedReply(score: nat, keywords: string, suggestions: string): string
  {
    ScoreLine(score) + KeywordsMarker + keywords + SuggestionsMarker + suggestions
  }

  /** The keyword part holds no `Suggestions:`, not even one that runs into the marker after it. */
  predicate FreeOfSuggestionsMarker(keywords: string) {
    forall j :: 0 <= j < |keywords| ==> !MatchesAtCI(keywords + SuggestionsMarker, j, SuggestionsMarker)
  }

  lemma LowerIsNot(c: char, lower: char, upper: char)
    requires 'a' <= lower <= 'z' && upper as int == lower as int - 32
    requires c != lower && c != upper
    ensures AsciiLower(c) != lower
  {
  }

  /** A keyword part without the letter `u` cannot hold `Suggestions:`, whose second letter is `u`. */
  lemma FreeWithoutU(keywords: string)
    requires 'u' !in keywords && 'U' !in keywords
    ensures FreeOfSuggestionsMarker(keywords)
  {
    var text := keywords + SuggestionsMarker;
    forall j | 0 <= j < |keywords| ensures !MatchesAtCI(text, j, SuggestionsMarker) {
      if j + 1 < |keywords| {
        assert text[j + 1] == keywords[j + 1];
        assert keywords[j + 1] in keywords;
        LowerIsNot(text[j + 1], 'u', 'U');
      } else {
        assert text[j + 1] == 'S';
      }
      MismatchCI(text, j, SuggestionsMarker, 1);
    }
  }

  /** The score line holds no letter `m`, so `Missing Keywords:` cannot start inside it. */
  lemma ScoreLineHasNoKeywordsMarker(score: nat, rest: string)
    ensures forall j :: 0 <= j < |ScoreLine(score)| ==> !MatchesAtCI(ScoreLine(score) + rest, j, KeywordsMarker)
  {
    var line := ScoreLine(score);
    forall c | c in line ensures AsciiLower(c) != AsciiLower(KeywordsMarker[0]) {
      assert c in ScoreMarker || c in Decimal(score) || c == '\n';
      if c in Decimal(score) {
        assert IsDigit(c);
      }
      LowerIsNot(c, 'm', 'M');
    }
    assert line + rest == [] + line + rest;
    NoMatchCIInPiece([], line, rest, KeywordsMarker);
  }

  /** In the score line only the leading `S` could start `Suggestions:`, and it is followed by `c`. */
  lemma ScoreLineHasNoSuggestionsMarker(score: nat, rest: string)
    ensures forall j :: 0 <= j < |ScoreLine(score)| ==> !MatchesAtCI(ScoreLine(score) + rest, j, SuggestionsMarker)
  {
    var text := ScoreLine(score) + rest;
    var piece := "core: " + Decimal(score) + "\n";
    assert ScoreMarker == "S" + "core: ";
    assert text == "S" + piece + rest;
    forall c | c in piece ensures AsciiLower(c) != AsciiLower(SuggestionsMarker[0]) {
      assert c in "core: " || c in Decimal(score) || c == '\n';
      if c in Decimal(score) {
        assert IsDigit(c);
      }
      LowerIsNot(c, 's', 'S');
    }
    NoMatchCIInPiece("S", piece, rest, SuggestionsMarker);
    assert text[1] == 'c';
    MismatchCI(text, 0, SuggestionsMarker, 1);
  }

  /**
   * `Suggestions:` cannot start inside a piece without the letter `u` whose last character
   * is not an `s`: every start but the last is followed by a letter other than `u`.
   */
  lemma NoSuggestionsMarkerInPiece(a: string, rest: string)
    requires 'u' !in a && 'U' !in a
    requires a != [] && AsciiLower(a[|a| - 1]) != 's'
    ensures forall j :: 0 <= j < |a| ==> !MatchesAtCI(a + rest, j, SuggestionsMarker)
  {
    var text := a + rest;
    forall j | 0 <= j < |a| ensures !MatchesAtCI(text, j, SuggestionsMarker) {
      if j + 1 < |a| {
        assert text[j + 1] == a[j + 1];
        assert a[j + 1] in a;
        LowerIsNot(text[j + 1], 'u', 'U');
        MismatchCI(text, j, SuggestionsMarker, 1);
      } else {
        MismatchCI(text, j, SuggestionsMarker, 0);
      }
    }
  }

  /** `Missing Keywords:` has no `u`, so `Suggestions:` cannot start inside it. */
  lemma KeywordsMarkerHasNoSuggestionsMarker(rest: string)
    ensures forall j :: 0 <= j < |KeywordsMarker| ==> !MatchesAtCI(KeywordsMarker + rest, j, SuggestionsMarker)
  {
    assert 'u' !in KeywordsMarker && 'U' !in KeywordsMarker;
    NoSuggestionsMarkerInPiece(KeywordsMarker, rest);
  }

  /** `Missing Keywords:` is first found right after the score line. */
  lemma FormattedKeywordsMarker(score: nat, keywords: string, suggestions: string)
    ensures FindCI(FormattedReply(score, keywords, suggestions), KeywordsMarker, 0) == Some(|ScoreLine(score)|)
  {
    var line := ScoreLine(score);
    var rest := KeywordsMarker + keywords + SuggestionsMarker + suggestions;
    var text := FormattedReply(score, keywords, suggestions);
    assert text == line + rest;
    ScoreLineHasNoKeywordsMarker(score, rest);
    assert text[|line|..|line| + |KeywordsMarker|] == KeywordsMarker;
    MatchIsMatchCI(text, |line|, KeywordsMarker);
    FindCIFirst(text, KeywordsMarker, 0, |line|);
  }

  /** When the keyword part is free of it, `Suggestions:` is first found right after the keyword part. */
  lemma FormattedSuggestionsMarker(score: nat, keywords: string, suggestions: string)
    requires FreeOfSuggestionsMarker(keywords)
    ensures IsFirstCI(FormattedReply(score, keywords, suggestions), SuggestionsMarker,
                      |ScoreLine(score)| + |KeywordsMarker| + |keywords|)
  {
    var line := ScoreLine(score);
    var afterMarker := keywords + SuggestionsMarker + suggestions;
    var afterLine := KeywordsMarker + afterMarker;
    var text := FormattedReply(score, keywords, suggestions);
    assert text == line + afterLine;
    NoMatchCIExtended(keywords + SuggestionsMarker, suggestions, |keywords|, SuggestionsMarker);
    AfterLineFree(keywords, suggestions);
    ScoreLineHasNoSuggestionsMarker(score, afterLine);
    NoMatchCIShifted(line, afterLine, |KeywordsMarker| + |keywords|, SuggestionsMarker);
    MarkerAfterKeywords(line, keywords, suggestions);
  }

  /** After the score line, `Suggestions:` does not start before the end of the keyword part. */
  lemma AfterLineFree(keywords: string, suggestions: string)
    requires forall j :: 0 <= j < |keywords| ==>
      !MatchesAtCI(keywords + SuggestionsMarker + suggestions, j, SuggestionsMarker)
    ensures forall j :: 0 <= j < |KeywordsMarker| + |keywords| ==>
      !MatchesAtCI(KeywordsMarker + (keywords + SuggestionsMarker + suggestions), j, SuggestionsMarker)
  {
    var afterMarker := keywords + SuggestionsMarker + suggestions;
    KeywordsMarkerHasNoSuggestionsMarker(afterMarker);
    NoMatchCIShifted(KeywordsMarker, afterMarker, |keywords|, SuggestionsMarker);
  }

  /** `Suggestions:` does occur right after the keyword part. */
  lemma MarkerAfterKeywords(line: string, keywords: string, suggestions: string)
    ensures MatchesAtCI(line + (KeywordsMarker + (keywords + SuggestionsMarker + suggestions)),
                        |line| + |KeywordsMarker| + |keywords|, SuggestionsMarker)
  {
    var head := line + KeywordsMarker + keywords;
    var text := line + (KeywordsMarker + (keywords + SuggestionsMarker + suggestions));
    assert text == head + SuggestionsMarker + suggestions;
    assert text[|head|..|head| + |SuggestionsMarker|] == SuggestionsMarker;
    MatchIsMatchCI(text, |head|, SuggestionsMarker);
  }

  /** The score of a formatted reply is the one written on its first line. */
  lemma FormattedScore(score: nat, keywords: string, suggestions: string)
    ensures Score(FormattedReply(score, keywords, suggestions)) == Some(score)
  {
    var rest := "\n" + KeywordsMarker + keywords + SuggestionsMarker + suggestions;
    assert FormattedReply(score, keywords, suggestions) == ScoreMarker + Decimal(score) + rest;
    ScoreOfFirstLine(score, rest);
  }

  /** The missing keywords of a formatted reply are those of its keyword part. */
  lemma FormattedKeywords(score: nat, keywords: string, suggestions: string)
    requires FreeOfSuggestionsMarker(keywords)
    ensures MissingKeywords(FormattedReply(score, keywords, suggestions)) == Some(Keywords(keywords))
  {
    var text := FormattedReply(score, keywords, suggestions);
    var head := ScoreLine(score) + KeywordsMarker;
    var at := |head| + |keywords|;
    assert text == head + keywords + (SuggestionsMarker + suggestions);
    MiddleSlice(head, keywords, SuggestionsMarker + suggestions);
    FormattedKeywordsMarker(score, keywords, suggestions);
    FormattedSuggestionsMarker(score, keywords, suggestions);
    FindCIAfter(text, SuggestionsMarker, |head|, at);
    KeywordsBetweenMarkers(text, |head|, at);
  }

  /** The keyword part runs from the end of the first `Missing Keywords:` to the next `Suggestions:`. */
  lemma KeywordsBetweenMarkers(text: string, start: nat, at: nat)
    requires |KeywordsMarker| <= start <= at <= |text|
    requires FindCI(text, KeywordsMarker, 0) == Some(start - |KeywordsMarker|)
    requires FindCI(text, SuggestionsMarker, start) == Some(at)
    ensures MissingKeywords(text) == Some(Keywords(text[start..at]))
  {
    assert KeywordsSpan(text) == Some(Span(start, at));
    assert KeywordsSlice(text) == Some(text[start..at]);
  }

  /** The first occurrence in the whole text is also the first one after any earlier position. */
  lemma FindCIAfter(text: string, pat: string, from: nat, at: nat)
    requires from <= at && IsFirstCI(text, pat, at)
    ensures FindCI(text, pat, from) == Some(at)
  {
    FindCIFirst(text, pat, from, at);
  }

  lemma MiddleSlice(a: string, b: string, c: string)
    ensures |a| + |b| <= |a + b + c| && (a + b + c)[|a|..|a| + |b|] == b
  {
  }

  /** The suggestions of a formatted reply are those of the lines after `Suggestions:`. */
  lemma FormattedSuggestions(score: nat, keywords: string, suggestions: string)
    requires FreeOfSuggestionsMarker(keywords)
    ensures SuggestionList(FormattedReply(score, keywords, suggestions)) == Some(Suggestions(suggestions))
  {
    var head := ScoreLine(score) + KeywordsMarker + keywords + SuggestionsMarker;
    FormattedSuggestionsMarker(score, keywords, suggestions);
    assert FormattedReply(score, keywords, suggestions) == head + suggestions;
    SuggestionsAfterFirstMarker(head, suggestions);
  }

  /** When the first `Suggestions:` ends where `tail` begins, the suggestions are those of `tail`. */
  lemma SuggestionsAfterFirstMarker(head: string, tail: string)
    requires |head| >= |SuggestionsMarker|
    requires IsFirstCI(head + tail, SuggestionsMarker, |head| - |SuggestionsMarker|)
    ensures SuggestionList(head + tail) == Some(Suggestions(tail))
  {
    var text := head + tail;
    FindCIFirst(text, SuggestionsMarker, 0, |head| - |SuggestionsMarker|);
    assert text[|head|..] == tail;
  }

  /** A reply in the requested format is parsed back into its three parts. */
  lemma ParseFormattedReply(score: nat, keywords: string, suggestions: string)
    requires FreeOfSuggestionsMarker(keywords)
    ensures var text := FormattedReply(score, keywords, suggestions);
      Score(text) == Some(score)
      && MissingKeywords(text) == Some(Keywords(keywords))
      && SuggestionList(text) == Some(Suggestions(suggestions))
  {
    FormattedScore(score, keywords, suggestions);
    FormattedKeywords(score, keywords, suggestions);
    FormattedSuggestions(score, keywords, suggestions);
  }

  /**
   * A keyword list written comma-separated, as item 2 of the prompt asks, is recovered as
   * exactly that list when the reply is parsed.
   */
  lemma ParseFormattedKeywordList(score: nat, ks: seq<string>, suggestions: string)
    requires AllKeywords(ks)
    requires FreeOfSuggestionsMarker(Join(ks, ','))
    ensures MissingKeywords(FormattedReply(score, Join(ks, ','), suggestions)) == Some(ks)
  {
    FormattedKeywords(score, Join(ks, ','), suggestions);
    KeywordsOfJoin(ks);
  }
}
