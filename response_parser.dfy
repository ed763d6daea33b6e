/**
 * The extraction of a match score, a missing-keyword list and a suggestion list from the
 * free-text reply of the text-generation service (`parseAnalysis`). Each of its three
 * regular expressions is modelled as an explicit scan for its marker:
 *   - `/Score: (\d+)/`: the literal `Score: ` with exactly one space, case-sensitive,
 *     followed by the longest run of decimal digits;
 *   - `/Missing Keywords:([\s\S]*?)(?=Suggestions:|$)/i`: everything after the first
 *     case-insensitive `Missing Keywords:` up to the nearest following `Suggestions:` or,
 *     when there is none, the end of the text (`$` without the `m` flag);
 *   - `/Suggestions:([\s\S]*?)$/i`: everything after the first case-insensitive `Suggestions:`.
 * Each scan starts again at the beginning of the text, independently of the others.
 */
module ResponseParser {
  import opened Wrappers
  import opened JsText

  const ScoreMarker: string := "Score: "
  const KeywordsMarker: string := "Missing Keywords:"
  const SuggestionsMarker: string := "Suggestions:"
  /** `slice(0, 7)` on the cleaned suggestion lines. */
  const MaxSuggestions: nat := 7

  // ---------------------------------------------------------------------------
  // Decimal numerals

  function DigitValue(c: char): nat
    requires IsDigit(c)
  {
    c as int - '0' as int
  }

  function DigitChar(d: nat): (c: char)
    requires d < 10
    ensures IsDigit(c) && DigitValue(c) == d
  {
    ('0' as int + d) as char
  }

  /** `parseInt` of a run of decimal digits, as an exact natural number. */
  function DecimalValue(ds: string): nat
    requires AllDigits(ds)
    decreases |ds|
  {
    if ds == [] then 0 else DecimalValue(ds[..|ds| - 1]) * 10 + DigitValue(ds[|ds| - 1])
  }

  /** The decimal numeral of `n`, without leading zeros: the inverse of `DecimalValue`. */
  function Decimal(n: nat): (r: string)
    ensures r != [] && AllDigits(r)
    ensures DecimalValue(r) == n
    ensures |r| > 1 ==> r[0] != '0'
    decreases n
  {
    if n < 10 then [DigitChar(n)]
    else
      var prefix := Decimal(n / 10);
      var r := prefix + [DigitChar(n % 10)];
      assert r[..|r| - 1] == prefix;
      r
  }

  // ---------------------------------------------------------------------------
  // Score

  /** `/Score: (\d+)/` matches at position `i`. */
  predicate ScoreAt(text: string, i: nat) {
    MatchesAt(text, i, ScoreMarker) && i + |ScoreMarker| < |text| && IsDigit(text[i + |ScoreMarker|])
  }

  /** The first position at or after `from` where the score pattern matches. */
  function FindScore(text: string, from: nat): (r: Option<nat>)
    ensures r.Some? ==> from <= r.value && ScoreAt(text, r.value)
    ensures r.Some? ==> forall j :: from <= j < r.value ==> !ScoreAt(text, j)
    ensures r.None? ==> forall j: nat :: from <= j ==> !ScoreAt(text, j)
    decreases |text| - from
  {
    if from + |ScoreMarker| >= |text| then None
    else if ScoreAt(text, from) then Some(from)
    else FindScore(text, from + 1)
  }

  /** `(\d+)` at position `k`: the longest run of digits starting there. */
  function DigitRun(text: string, k: nat): (r: string)
    requires k <= |text|
    ensures AllDigits(r) && k + |r| <= |text|
    ensures forall i :: 0 <= i < |r| ==> r[i] == text[k + i]
    ensures k + |r| == |text| || !IsDigit(text[k + |r|])
    ensures k < |text| && IsDigit(text[k]) ==> r != []
    decreases |text| - k
  {
    if k < |text| && IsDigit(text[k]) then [text[k]] + DigitRun(text, k + 1) else []
  }

  /**
   * `text.match(/Score: (\d+)/)` followed by `parseInt` of the group: the value of the
   * digit run at the first match, with no clamping to 0..100, or `None` when nothing matches.
   */
  function Score(text: string): (r: Option<nat>)
    ensures r.None? <==> forall i: nat :: !ScoreAt(text, i)
    ensures r.Some? ==>
      exists i: nat :: ScoreAt(text, i) && (forall j :: 0 <= j < i ==> !ScoreAt(text, j))
                    && r.value == DecimalValue(DigitRun(text, i + |ScoreMarker|))
  {
    match FindScore(text, 0)
    case None => None
    case Some(i) => Some(DecimalValue(DigitRun(text, i + |ScoreMarker|)))
  }

  /** A digit run followed by a non-digit (or the end) is the whole `(\d+)` group. */
  lemma {:induction false} DigitRunIs(text: string, k: nat, ds: string)
    requires AllDigits(ds) && k + |ds| <= |text| && text[k..k + |ds|] == ds
    requires k + |ds| == |text| || !IsDigit(text[k + |ds|])
    ensures DigitRun(text, k) == ds
    decreases |ds|
  {
    if ds != [] {
      assert text[k] == ds[0];
      assert text[k + 1..k + 1 + |ds[1..]|] == ds[1..];
      DigitRunIs(text, k + 1, ds[1..]);
      assert [ds[0]] + ds[1..] == ds;
    }
  }

  /** A reply that starts with `Score: ` and a run of digits yields the value of that run. */
  lemma ScoreOfLeadingDigits(ds: string, rest: string)
    requires ds != [] && AllDigits(ds)
    requires rest == [] || !IsDigit(rest[0])
    ensures Score(ScoreMarker + ds + rest) == Some(DecimalValue(ds))
  {
    var text := ScoreMarker + ds + rest;
    assert text[..|ScoreMarker|] == ScoreMarker;
    assert ScoreAt(text, 0);
    assert text[|ScoreMarker|..|ScoreMarker| + |ds|] == ds;
    DigitRunIs(text, |ScoreMarker|, ds);
  }

  /** A reply whose first line is `Score: N`, as the prompt asks, yields the score N. */
  lemma ScoreOfFirstLine(n: nat, rest: string)
    requires rest == [] || !IsDigit(rest[0])
    ensures Score(ScoreMarker + Decimal(n) + rest) == Some(n)
  {
    ScoreOfLeadingDigits(Decimal(n), rest);
  }

  /** Without a literal, case-sensitive `Score: ` there is no score. */
  lemma NoScoreWithoutMarker(text: string)
    requires forall i: nat :: !MatchesAt(text, i, ScoreMarker)
    ensures Score(text) == None
  {
  }

  // ---------------------------------------------------------------------------
  // Missing keywords

  /** `pat` occurs case-insensitively at `i` and nowhere before. */
  predicate IsFirstCI(text: string, pat: string, i: nat) {
    MatchesAtCI(text, i, pat) && forall j :: 0 <= j < i ==> !MatchesAtCI(text, j, pat)
  }

  /** Bounds of a substring of the reply. */
  datatype Span = Span(start: nat, end: nat)

  /**
   * Where the capture group of `/Missing Keywords:([\s\S]*?)(?=Suggestions:|$)/i` lies: from
   * just after the first `Missing Keywords:` to the nearest following `Suggestions:`, or to the
   * end of the text when no `Suggestions:` follows.
   */
  function KeywordsSpan(text: string): (r: Option<Span>)
    ensures r.None? <==> forall i: nat :: !MatchesAtCI(text, i, KeywordsMarker)
    ensures r.Some? ==> |KeywordsMarker| <= r.value.start <= r.value.end <= |text|
    ensures r.Some? ==> IsFirstCI(text, KeywordsMarker, r.value.start - |KeywordsMarker|)
    ensures r.Some? ==> r.value.end == |text| || MatchesAtCI(text, r.value.end, SuggestionsMarker)
    ensures r.Some? ==> forall j :: r.value.start <= j < r.value.end ==> !MatchesAtCI(text, j, SuggestionsMarker)
  {
    match FindCI(text, KeywordsMarker, 0)
    case None => None
    case Some(i) =>
      var start := i + |KeywordsMarker|;
      match FindCI(text, SuggestionsMarker, start)
      case None => Some(Span(start, |text|))
      case Some(e) => Some(Span(start, e))
  }

  /** The text of the keyword capture group. */
  function KeywordsSlice(text: string): Option<string>
  {
    match KeywordsSpan(text)
    case None => None
    case Some(sp) => Some(text[sp.start..sp.end])
  }

  /** A case-insensitive occurrence inside a substring is one in the whole text. */
  lemma MatchInSlice(text: string, a: nat, b: nat, j: nat, pat: string)
    requires a <= b <= |text|
    requires MatchesAtCI(text[a..b], j, pat)
    ensures a + j + |pat| <= b && MatchesAtCI(text, a + j, pat)
  {
    forall k | 0 <= k < |pat| ensures AsciiLower(text[a + j + k]) == AsciiLower(pat[k]) {
      assert text[a..b][j + k] == text[a + j + k];
    }
  }

  /** The keyword slice never contains a `Suggestions:` marker, so suggestion text cannot leak into it. */
  lemma KeywordsSliceHasNoSuggestions(text: string)
    requires KeywordsSlice(text).Some?
    ensures forall j: nat :: !MatchesAtCI(KeywordsSlice(text).value, j, SuggestionsMarker)
  {
    var sp := KeywordsSpan(text).value;
    forall j: nat | MatchesAtCI(text[sp.start..sp.end], j, SuggestionsMarker) ensures false {
      MatchInSlice(text, sp.start, sp.end, j, SuggestionsMarker);
    }
  }

  /** What a keyword looks like after `trim` and the empty-piece filter. */
  predicate IsKeyword(k: string) {
    k != [] && IsTrimmed(k) && ',' !in k
  }

  predicate AllKeywords(ks: seq<string>) {
    forall k :: k in ks ==> IsKeyword(k)
  }

  /** `slice.split(',').map(k => k.trim()).filter(k => k.length > 0)`. */
  function Keywords(slice: string): (r: seq<string>)
    ensures forall k :: k in r ==> IsKeyword(k)
  {
    var pieces := Split(slice, ',');
    TrimmedPiecesAreKeywords(pieces);
    Filter(NonEmpty, Map(Trim, pieces))
  }

  /** Trimmed comma-free pieces that are not empty are keywords. */
  lemma TrimmedPiecesAreKeywords(pieces: seq<string>)
    requires forall p :: p in pieces ==> ',' !in p
    ensures forall k :: k in Filter(NonEmpty, Map(Trim, pieces)) ==> IsKeyword(k)
  {
    TrimKeepsOut(pieces, ',');
    var ks := Filter(NonEmpty, Map(Trim, pieces));
    assert forall k :: k in ks ==> NonEmpty(k) && k in Map(Trim, pieces);
  }

  /** The keywords of two comma-separated parts are those of each part, in order. */
  lemma KeywordsConcat(a: string, b: string)
    ensures Keywords(a + [','] + b) == Keywords(a) + Keywords(b)
  {
    SplitConcat(a, b, ',');
    MapConcat(Trim, Split(a, ','), Split(b, ','));
    FilterConcat(NonEmpty, Map(Trim, Split(a, ',')), Map(Trim, Split(b, ',')));
  }

  /** A part without a comma gives its trimmed text, unless that is empty. */
  lemma KeywordsOfPiece(s: string)
    requires ',' !in s
    ensures Keywords(s) == if Trim(s) == [] then [] else [Trim(s)]
  {
    SplitWithoutSep(s, ',');
  }

  /** A list of keywords joined with commas splits back into exactly that list. */
  lemma KeywordsOfJoin(ks: seq<string>)
    requires AllKeywords(ks)
    ensures Keywords(Join(ks, ',')) == ks
  {
    if ks == [] {
      assert Split(Join(ks, ','), ',') == [[]];
      assert Map(Trim, [[]]) == [[]];
      return;
    }
    assert forall p :: p in ks ==> ',' !in p;
    SplitJoin(ks, ',');
    TrimmedPiecesUnchanged(ks);
    NonEmptyPiecesKept(ks);
  }

  /** Dropping empty strings keeps a list of keywords as it is. */
  lemma NonEmptyPiecesKept(ks: seq<string>)
    requires AllKeywords(ks)
    ensures Filter(NonEmpty, ks) == ks
  {
    forall i | 0 <= i < |ks| ensures NonEmpty(ks[i]) {
      assert ks[i] in ks;
    }
  }

  /** Trimming leaves already trimmed pieces as they are. */
  lemma TrimmedPiecesUnchanged(ks: seq<string>)
    requires AllKeywords(ks)
    ensures Map(Trim, ks) == ks
  {
    forall i | 0 <= i < |ks| ensures Trim(ks[i]) == ks[i] {
      assert ks[i] in ks;
      TrimTrimmed(ks[i]);
    }
  }

  /** The missing-keyword list of a reply, or `None` when `Missing Keywords:` does not occur. */
  function MissingKeywords(text: string): (r: Option<seq<string>>)
    ensures r.Some? <==> exists i: nat :: MatchesAtCI(text, i, KeywordsMarker)
    ensures r.Some? ==> AllKeywords(r.value)
  {
    match KeywordsSlice(text)
    case None => None
    case Some(s) => Some(Keywords(s))
  }

  // ---------------------------------------------------------------------------
  // Suggestions

  /** The class `[•\-\*#\d\.\s]` of bullet and numbering characters. */
  predicate IsBulletChar(c: char) {
    c == '\U{2022}' || c == '-' || c == '*' || c == '#' || IsDigit(c) || c == '.' || IsSpace(c)
  }

  /** `line.replace(/^[•\-\*#\d\.\s]+/, '')`. */
  function StripBullets(line: string): string
  {
    DropWhile(IsBulletChar, line)
  }

  /** What a suggestion looks like after cleaning. */
  predicate IsSuggestion(s: string) {
    s != [] && IsTrimmed(s) && !IsBulletChar(s[0]) && '\n' !in s
  }

  /** At most seven suggestions, each cleaned. */
  predicate SuggestionsWellFormed(ss: seq<string>) {
    |ss| <= MaxSuggestions && forall s :: s in ss ==> IsSuggestion(s)
  }

  /** A string that starts with a non-space character keeps that start under `trim`. */
  lemma TrimKeepsStart(s: string)
    requires s != [] && !IsSpace(s[0])
    ensures Trim(s) != [] && Trim(s)[0] == s[0]
  {
    assert DropWhile(IsSpace, s) == s;
  }

  /** `s.replace(/^[•\-\*#\d\.\s]+/, '').trim()`: empty, or a string starting with no bullet character. */
  function CleanSuggestion(line: string): (r: string)
    ensures IsTrimmed(r)
    ensures r != [] ==> !IsBulletChar(r[0])
    ensures forall c :: c in r ==> c in line
  {
    var stripped := StripBullets(line);
    var r := Trim(stripped);
    assert r != [] ==> !IsBulletChar(r[0]) by {
      if stripped != [] { TrimKeepsStart(stripped); }
    }
    assert forall c :: c in r ==> c in line by {
      forall c | c in r ensures c in line { TrimChars(stripped, c); }
    }
    r
  }

  /**
   * `tail.split('\n').map(s => s.trim()).filter(s => s.length > 0)
   *   .map(s => s.replace(/^[•\-\*#\d\.\s]+/, '').trim()).filter(s => s.length > 0)`.
   */
  function CleanLines(tail: string): (r: seq<string>)
    ensures forall s :: s in r ==> IsSuggestion(s)
  {
    var lines := Split(tail, '\n');
    TrimKeepsOut(lines, '\n');
    var kept := Filter(NonEmpty, Map(Trim, lines));
    CleanKeepsOut(kept, '\n');
    Filter(NonEmpty, Map(CleanSuggestion, kept))
  }

  /** Trimming the pieces adds no character to them. */
  lemma TrimKeepsOut(ps: seq<string>, c: char)
    requires forall p :: p in ps ==> c !in p
    ensures forall t :: t in Map(Trim, ps) ==> c !in t && IsTrimmed(t)
  {
    var ts := Map(Trim, ps);
    forall t | t in ts ensures c !in t && IsTrimmed(t) {
      var i :| 0 <= i < |ts| && ts[i] == t;
      if c in t { TrimChars(ps[i], c); }
    }
  }

  /** Cleaning the lines adds no character to them. */
  lemma CleanKeepsOut(ks: seq<string>, c: char)
    requires forall k :: k in ks ==> c !in k
    ensures forall t :: t in Map(CleanSuggestion, ks) ==> c !in t
  {
    var ts := Map(CleanSuggestion, ks);
    forall t | t in ts ensures c !in t {
      var i :| 0 <= i < |ts| && ts[i] == t;
      assert ks[i] in ks;
    }
  }

  /** The cleaned lines of two newline-separated parts are those of each part, in order. */
  lemma CleanLinesConcat(a: string, b: string)
    ensures CleanLines(a + ['\n'] + b) == CleanLines(a) + CleanLines(b)
  {
    var la, lb := Split(a, '\n'), Split(b, '\n');
    SplitConcat(a, b, '\n');
    MapConcat(Trim, la, lb);
    var ka, kb := Filter(NonEmpty, Map(Trim, la)), Filter(NonEmpty, Map(Trim, lb));
    FilterConcat(NonEmpty, Map(Trim, la), Map(Trim, lb));
    MapConcat(CleanSuggestion, ka, kb);
    FilterConcat(NonEmpty, Map(CleanSuggestion, ka), Map(CleanSuggestion, kb));
  }

  /** A single line gives its cleaned text, unless that is empty. */
  lemma CleanLinesOfLine(s: string)
    requires '\n' !in s
    ensures CleanLines(s) == if Trim(s) == [] || CleanSuggestion(Trim(s)) == [] then [] else [CleanSuggestion(Trim(s))]
  {
    SplitWithoutSep(s, '\n');
  }

  /** `.slice(0, 7)` of the cleaned lines: at most seven suggestions, the first ones, in order. */
  function Suggestions(tail: string): (r: seq<string>)
    ensures SuggestionsWellFormed(r)
  {
    Take(CleanLines(tail), MaxSuggestions)
  }

  /** The suggestions are the first seven cleaned lines, or all of them when there are fewer. */
  lemma SuggestionsArePrefix(tail: string)
    ensures var lines := CleanLines(tail);
      |Suggestions(tail)| == (if |lines| < MaxSuggestions then |lines| else MaxSuggestions)
      && Suggestions(tail) == lines[..|Suggestions(tail)|]
  {
  }

  /** Where the capture group of `/Suggestions:([\s\S]*?)$/i` starts: just after the first `Suggestions:`. */
  function SuggestionsStart(text: string): (r: Option<nat>)
    ensures r.None? <==> forall i: nat :: !MatchesAtCI(text, i, SuggestionsMarker)
    ensures r.Some? ==> |SuggestionsMarker| <= r.value <= |text|
    ensures r.Some? ==> IsFirstCI(text, SuggestionsMarker, r.value - |SuggestionsMarker|)
  {
    match FindCI(text, SuggestionsMarker, 0)
    case None => None
    case Some(i) => Some(i + |SuggestionsMarker|)
  }

  /** The suggestion list of a reply, or `None` when `Suggestions:` does not occur. */
  function SuggestionList(text: string): (r: Option<seq<string>>)
    ensures r.Some? <==> exists i: nat :: MatchesAtCI(text, i, SuggestionsMarker)
    ensures r.Some? ==> SuggestionsWellFormed(r.value)
  {
    match SuggestionsStart(text)
    case None => None
    case Some(start) => Some(Suggestions(text[start..]))
  }
}
