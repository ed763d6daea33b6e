/**
 * Worked replies and failure messages: what the parser and the classifier are proved to
 * make of the formats the prompt asks for, and of the ways a reply can deviate from them.
 */
module SampleReplies {
  import opened Wrappers
  import opened JsText
  import opened ResponseParser
  import opened ReplyFormat
  import opened ResumeAnalysis

  // ---------------------------------------------------------------------------
  // Bullet stripping

  /** Leading bullet characters are removed up to the first other character. */
  lemma StripRun(bullets: string, text: string)
    requires forall i :: 0 <= i < |bullets| ==> IsBulletChar(bullets[i])
    requires text == [] || !IsBulletChar(text[0])
    ensures StripBullets(bullets + text) == text
  {
    DropWhileRun(IsBulletChar, bullets, text);
  }

  /** A run of bullet characters before a trimmed text is cleaned away, leaving the text. */
  lemma CleanRun(bullets: string, text: string)
    requires forall i :: 0 <= i < |bullets| ==> IsBulletChar(bullets[i])
    requires text == [] || !IsBulletChar(text[0])
    requires IsTrimmed(text)
    ensures CleanSuggestion(bullets + text) == text
  {
    StripRun(bullets, text);
    TrimTrimmed(text);
  }

  lemma CleanBulletDot()
    ensures CleanSuggestion("\U{2022} Add metrics") == "Add metrics"
  {
    assert "\U{2022} Add metrics" == "\U{2022} " + "Add metrics";
    CleanRun("\U{2022} ", "Add metrics");
  }

  lemma CleanNumbered()
    ensures CleanSuggestion("1. Quantify impact") == "Quantify impact"
  {
    assert "1. Quantify impact" == "1. " + "Quantify impact";
    CleanRun("1. ", "Quantify impact");
  }

  lemma CleanHyphen()
    ensures CleanSuggestion("- Use action verbs") == "Use action verbs"
  {
    assert "- Use action verbs" == "- " + "Use action verbs";
    CleanRun("- ", "Use action verbs");
  }

  /** Numbering is a bullet too, so a suggestion that starts with a number loses it. */
  lemma CleanLeadingNumber()
    ensures CleanSuggestion("3 years of Go") == "years of Go"
  {
    assert "3 years of Go" == "3 " + "years of Go";
    CleanRun("3 ", "years of Go");
  }

  // ---------------------------------------------------------------------------
  // Keywords

  /** A keyword with white space around it, as the prompt's comma-separated list puts it. */
  predicate PaddedKeyword(lead: string, word: string, trail: string) {
    AllSpace(lead) && AllSpace(trail) && IsKeyword(word) && ',' !in lead && ',' !in trail
  }

  lemma PaddedKeywordTrims(lead: string, word: string, trail: string)
    requires PaddedKeyword(lead, word, trail)
    ensures ',' !in lead + word + trail && Trim(lead + word + trail) == word
  {
    TrimPadded(lead, word, trail);
  }

  lemma KeywordsOfThree(x: string, y: string, z: string)
    requires ',' !in x && ',' !in y && ',' !in z
    requires Trim(x) != [] && Trim(y) != [] && Trim(z) != []
    ensures Keywords(x + [','] + (y + [','] + z)) == [Trim(x), Trim(y), Trim(z)]
  {
    PiecesOfThree(x, y, z);
    TrimThree(x, y, z);
    KeepThree(Trim(x), Trim(y), Trim(z));
  }

  /** Trimming three pieces trims each of them. */
  lemma TrimThree(x: string, y: string, z: string)
    ensures Map(Trim, [x, y, z]) == [Trim(x), Trim(y), Trim(z)]
  {
    var s := [x, y, z];
    assert s[0] == x && s[1] == y && s[2] == z;
  }

  /** Filtering out empty strings keeps three non-empty ones. */
  lemma KeepThree(a: string, b: string, c: string)
    requires a != [] && b != [] && c != []
    ensures Filter(NonEmpty, [a, b, c]) == [a, b, c]
  {
    var s := [a, b, c];
    assert forall i :: 0 <= i < |s| ==> NonEmpty(s[i]);
  }

  /** Three comma-free parts joined by commas split into those three parts. */
  lemma PiecesOfThree(x: string, y: string, z: string)
    requires ',' !in x && ',' !in y && ',' !in z
    ensures Split(x + [','] + (y + [','] + z), ',') == [x, y, z]
  {
    SplitWithoutSep(x, ',');
    SplitWithoutSep(y, ',');
    SplitWithoutSep(z, ',');
    SplitConcat(y, z, ',');
    SplitConcat(x, y + [','] + z, ',');
  }

  /** Three padded keywords separated by commas give the three keywords, in order. */
  lemma KeywordsOfPadded(a: string, b: string, c: string, d: string, e: string, f: string,
                         g: string, h: string, i: string)
    requires PaddedKeyword(a, b, c) && PaddedKeyword(d, e, f) && PaddedKeyword(g, h, i)
    ensures Keywords(a + b + c + [','] + (d + e + f + [','] + (g + h + i))) == [b, e, h]
  {
    PaddedKeywordTrims(a, b, c);
    PaddedKeywordTrims(d, e, f);
    PaddedKeywordTrims(g, h, i);
    KeywordsOfThree(a + b + c, d + e + f, g + h + i);
  }

  /** The comma-separated list the prompt asks for. */
  lemma KeywordsOfList()
    ensures Keywords(" Python, SQL, Docker\n") == ["Python", "SQL", "Docker"]
  {
    assert " Python, SQL, Docker\n"
        == " " + "Python" + "" + [','] + (" " + "SQL" + "" + [','] + (" " + "Docker" + "\n"));
    ListedKeywordsPadded();
    KeywordsOfPadded(" ", "Python", "", " ", "SQL", "", " ", "Docker", "\n");
  }

  lemma ListedKeywordsPadded()
    ensures PaddedKeyword(" ", "Python", "") && PaddedKeyword(" ", "SQL", "")
    ensures PaddedKeyword(" ", "Docker", "\n")
  {
  }

  // ---------------------------------------------------------------------------
  // Scores

  lemma DecimalValue3(ds: string)
    requires |ds| == 3 && AllDigits(ds)
    ensures DecimalValue(ds) == DigitValue(ds[0]) * 100 + DigitValue(ds[1]) * 10 + DigitValue(ds[2])
  {
    var p := ds[..2];
    assert p[..1] == ds[..1] && p[1] == ds[1];
    assert ds[..1][..0] == [];
    assert DecimalValue(ds[..1]) == DigitValue(ds[0]);
    assert DecimalValue(p) == DigitValue(ds[0]) * 10 + DigitValue(ds[1]);
  }

  lemma ScoreOfDigits(ds: string)
    requires ds != [] && AllDigits(ds)
    ensures Score(ScoreMarker + ds) == Some(DecimalValue(ds))
  {
    assert ScoreMarker + ds == ScoreMarker + ds + "";
    ScoreOfLeadingDigits(ds, "");
  }

  /** A three-digit score, 100 or more, is kept as it is: nothing clamps it to 100. */
  lemma ScoreNotClamped(ds: string)
    requires |ds| == 3 && AllDigits(ds) && ds[0] != '0'
    ensures Score(ScoreMarker + ds) == Some(DecimalValue(ds)) && DecimalValue(ds) >= 100
  {
    ThreeDigitsAtLeastHundred(ds);
    ScoreOfDigits(ds);
  }

  lemma ThreeDigitsAtLeastHundred(ds: string)
    requires |ds| == 3 && AllDigits(ds) && ds[0] != '0'
    ensures DecimalValue(ds) >= 100
  {
    DecimalValue3(ds);
  }

  /** The score marker is case-sensitive. */
  lemma LowerCaseScoreIgnored()
    ensures Score("score: 72") == None
  {
    NoMatchInPiece("", "score: 72", "", ScoreMarker);
    assert "" + "score: 72" + "" == "score: 72";
    NoScoreWithoutMarker("score: 72");
  }

  /** The score marker needs exactly one space before the digits. */
  lemma UnspacedScoreIgnored()
    ensures Score("Score:72") == None
  {
    var text := "Score:72";
    assert text == "S" + "core:72" + "";
    NoMatchInPiece("S", "core:72", "", ScoreMarker);
    assert text[6] != ScoreMarker[6];
    assert !MatchesAt(text, 0, ScoreMarker);
    NoScoreWithoutMarker(text);
  }

  // ---------------------------------------------------------------------------
  // A whole reply in the requested format

  const Body: string := " Python, SQL, Docker\n"
  const Tail: string := "\n\U{2022} Add metrics\n\U{2022} Quantify impact"

  /** A line made of bullet characters followed by a cleaned suggestion. */
  predicate BulletedLine(bullet: string, text: string) {
    bullet != [] && !IsSpace(bullet[0]) && '\n' !in bullet
    && (forall i :: 0 <= i < |bullet| ==> IsBulletChar(bullet[i]))
    && IsSuggestion(text)
  }

  lemma CleanBulletedLine(bullet: string, text: string)
    requires BulletedLine(bullet, text)
    ensures CleanLines(bullet + text) == [text]
  {
    var line := bullet + text;
    assert line[0] == bullet[0] && line[|line| - 1] == text[|text| - 1];
    TrimTrimmed(line);
    StripRun(bullet, text);
    TrimTrimmed(text);
    CleanLinesOfLine(line);
  }

  /** A blank line contributes nothing. */
  lemma CleanLinesBlank(blank: string, rest: string)
    requires AllSpace(blank) && '\n' !in blank
    ensures CleanLines(blank + ['\n'] + rest) == CleanLines(rest)
  {
    CleanLinesConcat(blank, rest);
    CleanLinesOfLine(blank);
  }

  lemma CleanLinesBulleted(bullet: string, text: string, rest: string)
    requires BulletedLine(bullet, text)
    ensures CleanLines(bullet + text + ['\n'] + rest) == [text] + CleanLines(rest)
  {
    CleanLinesConcat(bullet + text, rest);
    CleanBulletedLine(bullet, text);
  }

  /** A blank line and two bulleted lines give the two suggestions, in order. */
  lemma CleanTwoBulletedLines(blank: string, b1: string, t1: string, b2: string, t2: string)
    requires AllSpace(blank) && '\n' !in blank
    requires BulletedLine(b1, t1) && BulletedLine(b2, t2)
    ensures CleanLines(blank + ['\n'] + (b1 + t1 + ['\n'] + (b2 + t2))) == [t1, t2]
  {
    CleanBulletedLine(b2, t2);
    CleanLinesBulleted(b1, t1, b2 + t2);
    CleanLinesBlank(blank, b1 + t1 + ['\n'] + (b2 + t2));
  }

  const Bullet: string := "\U{2022} "

  lemma FirstSuggestionBulleted()
    ensures BulletedLine(Bullet, "Add metrics")
  {
  }

  lemma SecondSuggestionBulleted()
    ensures BulletedLine(Bullet, "Quantify impact")
  {
  }

  /** The suggestion lines of the sample reply. */
  lemma TailLines()
    ensures CleanLines(Tail) == ["Add metrics", "Quantify impact"]
  {
    assert Tail == [] + ['\n'] + (Bullet + "Add metrics" + ['\n'] + (Bullet + "Quantify impact"));
    FirstSuggestionBulleted();
    SecondSuggestionBulleted();
    CleanTwoBulletedLines([], Bullet, "Add metrics", Bullet, "Quantify impact");
  }

  /** The sample reply yields score 72, three keywords and two suggestions. */
  lemma SampleReplyParsed()
    ensures var text := FormattedReply(72, Body, Tail);
      Score(text) == Some(72)
      && MissingKeywords(text) == Some(["Python", "SQL", "Docker"])
      && SuggestionList(text) == Some(["Add metrics", "Quantify impact"])
  {
    FreeWithoutU(Body);
    ParseFormattedReply(72, Body, Tail);
    KeywordsOfList();
    TailLines();
  }

  // ---------------------------------------------------------------------------
  // Failure messages

  lemma InvalidKeyFailure()
    ensures ClassifyFailure("Invalid API key provided") == InvalidKey
  {
    assert MatchesAt("Invalid API key provided", 8, "API key");
  }

  lemma ModelFailure()
    ensures ClassifyFailure("model not found") == ModelAccess
  {
    var m := "model not found";
    assert 'A' !in m;
    NoMatchWithout(m, "API key", 0);
    assert MatchesAt(m, 0, "model");
  }

  lemma TimeoutFailure()
    ensures ClassifyFailure("network timeout") == Generic
  {
    var m := "network timeout";
    assert 'A' !in m && 'd' !in m;
    NoMatchWithout(m, "API key", 0);
    NoMatchWithout(m, "model", 2);
  }
}
