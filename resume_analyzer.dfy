/**
 * The resume analyzer component: input validation before the remote call, the prompt sent
 * to the text-generation service, the classification of a failed call, the score label, and
 * the component state that `parseAnalysis` and `analyzeResume` update.
 *
 * The remote call is not modelled: its outcome, a reply text or a failure message, is an
 * input. The resume is the text the file reader yields, or `None` when no file was chosen.
 */
module ResumeAnalysis {
  import opened Wrappers
  import opened JsText
  import opened ResponseParser

  // ---------------------------------------------------------------------------
  // Messages shown to the user

  const ValidationMessage: string := "Please upload a resume and provide a job description"
  const InvalidKeyMessage: string := "Invalid API key. Please check your Gemini API key in the .env file."
  const ModelAccessMessage: string := "Error accessing the AI model. Please try again later."
  const GenericMessage: string := "Error analyzing resume. Please try again."

  // ---------------------------------------------------------------------------
  // Failure classification

  /** The three ways a failed call is reported. */
  datatype FailureKind = InvalidKey | ModelAccess | Generic

  /**
   * The ordered `includes` tests on the failure message: `API key` first, then `model`,
   * both case-sensitive, everything else generic.
   */
  function ClassifyFailure(message: string): (k: FailureKind)
    ensures k == InvalidKey <==> exists i: nat :: MatchesAt(message, i, "API key")
    ensures k == ModelAccess <==>
      (forall i: nat :: !MatchesAt(message, i, "API key")) && exists i: nat :: MatchesAt(message, i, "model")
    ensures k == Generic <==>
      (forall i: nat :: !MatchesAt(message, i, "API key")) && (forall i: nat :: !MatchesAt(message, i, "model"))
  {
    if Includes(message, "API key") then InvalidKey
    else if Includes(message, "model") then ModelAccess
    else Generic
  }

  function FailureMessage(k: FailureKind): string
  {
    match k
    case InvalidKey => InvalidKeyMessage
    case ModelAccess => ModelAccessMessage
    case Generic => GenericMessage
  }

  /** Each kind of error has its own message, so the user can tell them apart. */
  lemma FailureMessagesDistinct(k1: FailureKind, k2: FailureKind)
    ensures FailureMessage(k1) == FailureMessage(k2) <==> k1 == k2
    ensures FailureMessage(k1) != ValidationMessage
  {
    assert |ValidationMessage| == 52 && |InvalidKeyMessage| == 67;
    assert |ModelAccessMessage| == 53 && |GenericMessage| == 41;
  }

  // ---------------------------------------------------------------------------
  // The prompt

  const Indent: string := "        "

  /** The instructions, up to where the resume text is interpolated. */
  const PromptHead: string :=
    "\n"
    + Indent + "Analyze this resume against the job description and provide the following in a structured format:\n"
    + "\n"
    + Indent + "1. First line should be \"Score: XX\" where XX is a number between 0-100\n"
    + Indent + "2. Then \"Missing Keywords:\" followed by a comma-separated list of missing keywords\n"
    + Indent + "3. Finally \"Suggestions:\" followed by 6-7 bullet points for improvement suggestions\n"
    + "\n"
    + Indent + "Keep suggestions concise (1-2 lines each) and focus on actionable improvements.\n"
    + Indent + "Do not use quotes, numbers, or special characters in the suggestions.\n"
    + Indent + "Each suggestion should start with a bullet point (\U{2022}).\n"
    + "\n"
    + Indent + "Resume:\n"
    + Indent

  /** Between the resume text and the job description. */
  const PromptMiddle: string := "\n" + Indent + "\n" + Indent + "Job Description:\n" + Indent

  /** After the job description: the closing line of the template literal. */
  const PromptTail: string := "\n      "

  /** The template literal with the resume text and the job description interpolated verbatim. */
  function BuildPrompt(resumeText: string, jobDescription: string): (p: string)
    ensures Interpolates(p, PromptHead, resumeText, PromptMiddle, jobDescription, PromptTail)
  {
    InterpolatedParts(PromptHead, resumeText, PromptMiddle, jobDescription, PromptTail);
    PromptHead + resumeText + PromptMiddle + jobDescription + PromptTail
  }

  /**
   * `p` is the template `head`, `middle`, `tail` filled with `x` and `y`: each of the five
   * parts lies at its place, in order, and nothing else is in `p`.
   */
  predicate Interpolates(p: string, head: string, x: string, middle: string, y: string, tail: string) {
    |p| == |head| + |x| + |middle| + |y| + |tail|
    && p[..|head|] == head
    && p[|head|..|head| + |x|] == x
    && p[|head| + |x|..|head| + |x| + |middle|] == middle
    && p[|p| - |tail| - |y|..|p| - |tail|] == y
    && p[|p| - |tail|..] == tail
  }

  /** Where each part of a five-part concatenation lies. */
  lemma InterpolatedParts(head: string, x: string, middle: string, y: string, tail: string)
    ensures Interpolates(head + x + middle + y + tail, head, x, middle, y, tail)
  {
  }

  /** Two requests with resume texts of the same length give the same prompt only if they are the same request. */
  lemma BuildPromptInjective(r1: string, j1: string, r2: string, j2: string)
    requires |r1| == |r2|
    requires BuildPrompt(r1, j1) == BuildPrompt(r2, j2)
    ensures r1 == r2 && j1 == j2
  {
    InterpolationInjective(PromptHead, r1, j1, PromptMiddle, PromptTail, r2, j2);
  }

  /** Filling the same template with parts of the same first length gives the same text only for the same parts. */
  lemma InterpolationInjective(head: string, x1: string, y1: string, middle: string, tail: string,
                               x2: string, y2: string)
    requires |x1| == |x2|
    requires head + x1 + middle + y1 + tail == head + x2 + middle + y2 + tail
    ensures x1 == x2 && y1 == y2
  {
    InterpolatedParts(head, x1, middle, y1, tail);
    InterpolatedParts(head, x2, middle, y2, tail);
  }

  // ---------------------------------------------------------------------------
  // Validation

  /** `!resumeFile || !jobDescription` rejects the request; the description is not trimmed. */
  predicate IsValidRequest(resume: Option<string>, jobDescription: string) {
    resume.Some? && jobDescription != []
  }

  // ---------------------------------------------------------------------------
  // Presentation of the score

  /** The result panel is shown only for a positive score, so from the initial score a score of 0 looks like no score. */
  predicate ShowsResults(score: int) {
    score > 0
  }

  /** The label under the progress bar. */
  function ScoreLabel(score: int): (caption: string)
    ensures caption == "Excellent Match!" <==> score >= 80
    ensures caption == "Good Match" <==> 60 <= score < 80
    ensures caption == "Fair Match" <==> 40 <= score < 60
    ensures caption == "Needs Improvement" <==> score < 40
  {
    if score >= 80 then "Excellent Match!"
    else if score >= 60 then "Good Match"
    else if score >= 40 then "Fair Match"
    else "Needs Improvement"
  }

  /** The position of a label in the order of the bands, worst first. */
  function LabelRank(caption: string): nat
  {
    if caption == "Excellent Match!" then 3
    else if caption == "Good Match" then 2
    else if caption == "Fair Match" then 1
    else 0
  }

  /** A higher score never gets a worse label. */
  lemma ScoreLabelMonotone(a: int, b: int)
    requires a <= b
    ensures LabelRank(ScoreLabel(a)) <= LabelRank(ScoreLabel(b))
  {
  }

  // ---------------------------------------------------------------------------
  // How a reply changes the three result fields

  /** `setScore` runs only when the score pattern matched; otherwise the previous score stays. */
  function ScoreAfter(previous: nat, text: string): (r: nat)
    ensures (forall i: nat :: !ScoreAt(text, i)) ==> r == previous
    ensures Score(text).Some? ==> r == Score(text).value
  {
    Score(text).GetOr(previous)
  }

  /** `setMissingKeywords` runs only when the keyword pattern matched; otherwise the previous list stays. */
  function KeywordsAfter(previous: seq<string>, text: string): (r: seq<string>)
    ensures MissingKeywords(text).None? ==> r == previous
    ensures MissingKeywords(text).Some? ==> r == MissingKeywords(text).value
    ensures AllKeywords(previous) ==> AllKeywords(r)
  {
    MissingKeywords(text).GetOr(previous)
  }

  /** `setSuggestions` runs only when the suggestions pattern matched; otherwise the previous list stays. */
  function SuggestionsAfter(previous: seq<string>, text: string): (r: seq<string>)
    ensures SuggestionList(text).None? ==> r == previous
    ensures SuggestionList(text).Some? ==> r == SuggestionList(text).value
    ensures SuggestionsWellFormed(previous) ==> SuggestionsWellFormed(r)
  {
    SuggestionList(text).GetOr(previous)
  }

  /** From the initial score 0, the result panel stays hidden after a reply exactly when the reply had no score or a score of 0. */
  lemma ZeroScoreLooksAbsent(previous: nat, text: string)
    requires previous == 0
    ensures !ShowsResults(ScoreAfter(previous, text)) <==> Score(text).None? || Score(text) == Some(0)
  {
    assert ScoreAfter(previous, text) == Score(text).GetOr(previous);
    HiddenWhenZero(Score(text));
  }

  /**
   * After any earlier score, the panel is shown exactly when the reply's score is positive or,
   * when the reply has no score, the earlier score is: after a positive score, no score keeps
   * the panel visible while `Score: 0` hides it.
   */
  lemma PanelAfterReply(previous: nat, text: string)
    ensures ShowsResults(ScoreAfter(previous, text)) <==>
      if Score(text).Some? then Score(text).value > 0 else previous > 0
  {
    assert ScoreAfter(previous, text) == Score(text).GetOr(previous);
  }

  lemma HiddenWhenZero(parsed: Option<nat>)
    ensures !ShowsResults(parsed.GetOr(0)) <==> parsed.None? || parsed == Some(0)
  {
  }

  /** The prompt `analyzeResume` sends for a request, or `None` when validation rejects the request. */
  function RequestPrompt(resume: Option<string>, jobDescription: string): (r: Option<string>)
    ensures r.Some? <==> IsValidRequest(resume, jobDescription)
    ensures r.Some? ==> r.value == BuildPrompt(resume.value, jobDescription)
  {
    if IsValidRequest(resume, jobDescription) then Some(BuildPrompt(resume.value, jobDescription)) else None
  }

  /** The outcome of the remote call. */
  datatype Outcome = Success(text: string) | Failure(message: string)

  /** The state of the resume analyzer component. */
  class ResumeAnalyzer {
    var analysis: Option<string>
    var loading: bool
    var score: nat
    var error: Option<string>
    var missingKeywords: seq<string>
    var suggestions: seq<string>

    /** What every path through the component keeps true of the result fields. */
    ghost predicate Valid()
      reads this
    {
      AllKeywords(missingKeywords) && SuggestionsWellFormed(suggestions)
    }

    /** The initial `useState` values. */
    constructor ()
      ensures Valid()
      ensures analysis == None && !loading && score == 0 && error == None
      ensures missingKeywords == [] && suggestions == []
    {
      analysis := None;
      loading := false;
      score := 0;
      error := None;
      missingKeywords := [];
      suggestions := [];
    }

    /** The `setScore` call of `parseAnalysis`, made only when the score pattern matched. */
    method StoreScore(text: string)
      modifies this
      ensures score == ScoreAfter(old(score), text)
      ensures missingKeywords == old(missingKeywords) && suggestions == old(suggestions)
      ensures analysis == old(analysis) && loading == old(loading) && error == old(error)
    {
      score := ScoreAfter(score, text);
    }

    /** The `setMissingKeywords` call of `parseAnalysis`, made only when the keywords pattern matched. */
    method StoreKeywords(text: string)
      requires AllKeywords(missingKeywords)
      modifies this
      ensures AllKeywords(missingKeywords)
      ensures missingKeywords == KeywordsAfter(old(missingKeywords), text)
      ensures score == old(score) && suggestions == old(suggestions)
      ensures analysis == old(analysis) && loading == old(loading) && error == old(error)
    {
      missingKeywords := KeywordsAfter(missingKeywords, text);
    }

    /** The `setSuggestions` call of `parseAnalysis`, made only when the suggestions pattern matched. */
    method StoreSuggestions(text: string)
      requires SuggestionsWellFormed(suggestions)
      modifies this
      ensures SuggestionsWellFormed(suggestions)
      ensures suggestions == SuggestionsAfter(old(suggestions), text)
      ensures score == old(score) && missingKeywords == old(missingKeywords)
      ensures analysis == old(analysis) && loading == old(loading) && error == old(error)
    {
      suggestions := SuggestionsAfter(suggestions, text);
    }

    /** `parseAnalysis`: each result field is written only when its pattern matched. */
    method ParseAnalysis(text: string)
      requires Valid()
      modifies this
      ensures Valid()
      ensures score == ScoreAfter(old(score), text)
      ensures missingKeywords == KeywordsAfter(old(missingKeywords), text)
      ensures suggestions == SuggestionsAfter(old(suggestions), text)
      ensures analysis == old(analysis) && loading == old(loading) && error == old(error)
    {
      StoreScore(text);
      StoreKeywords(text);
      StoreSuggestions(text);
    }

    /**
     * The part of `analyzeResume` before the remote call: an invalid request sets the
     * validation error and returns without touching `loading`; a valid one sets `loading`,
     * clears the error and yields the prompt to send.
     */
    method BeginAnalysis(resume: Option<string>, jobDescription: string) returns (prompt: Option<string>)
      requires Valid()
      modifies this
      ensures Valid()
      ensures prompt == RequestPrompt(resume, jobDescription)
      ensures prompt.None? ==> error == Some(ValidationMessage) && loading == old(loading)
      ensures prompt.Some? ==> loading && error == None
      ensures analysis == old(analysis) && score == old(score)
      ensures missingKeywords == old(missingKeywords) && suggestions == old(suggestions)
    {
      if resume.None? || jobDescription == [] {
        error := Some(ValidationMessage);
        return None;
      }
      loading := true;
      error := None;
      prompt := Some(BuildPrompt(resume.value, jobDescription));
    }

    /**
     * The part of `analyzeResume` after the remote call: a reply is parsed and stored, a
     * failure is classified into an error message, and `loading` is cleared either way.
     */
    method FinishAnalysis(outcome: Outcome)
      requires Valid()
      modifies this
      ensures Valid()
      ensures !loading
      ensures outcome.Success? ==>
        score == ScoreAfter(old(score), outcome.text)
        && missingKeywords == KeywordsAfter(old(missingKeywords), outcome.text)
        && suggestions == SuggestionsAfter(old(suggestions), outcome.text)
        && analysis == Some(outcome.text) && error == old(error)
      ensures outcome.Failure? ==>
        error == Some(FailureMessage(ClassifyFailure(outcome.message)))
        && score == old(score) && missingKeywords == old(missingKeywords)
        && suggestions == old(suggestions) && analysis == old(analysis)
    {
      match outcome {
        case Success(text) =>
          ParseAnalysis(text);
          analysis := Some(text);
        case Failure(message) =>
          error := Some(FailureMessage(ClassifyFailure(message)));
      }
      loading := false;
    }

    /**
     * `analyzeResume`: validation, then the prompt is sent, with `loading` set for the
     * duration of the call, then the outcome is handled. Returns the prompt that was sent,
     * or `None` when no call was made.
     */
    method AnalyzeResume(resume: Option<string>, jobDescription: string, outcome: Outcome)
      returns (sent: Option<string>)
      requires Valid()
      modifies this
      ensures Valid()
      ensures sent == RequestPrompt(resume, jobDescription)
      ensures sent.None? ==>
        error == Some(ValidationMessage) && loading == old(loading)
        && score == old(score) && missingKeywords == old(missingKeywords)
        && suggestions == old(suggestions) && analysis == old(analysis)
      ensures sent.Some? ==> !loading
      ensures sent.Some? && outcome.Success? ==>
        score == ScoreAfter(old(score), outcome.text)
        && missingKeywords == KeywordsAfter(old(missingKeywords), outcome.text)
        && suggestions == SuggestionsAfter(old(suggestions), outcome.text)
        && analysis == Some(outcome.text) && error == None
      ensures sent.Some? && outcome.Failure? ==>
        error == Some(FailureMessage(ClassifyFailure(outcome.message)))
        && score == old(score) && missingKeywords == old(missingKeywords)
        && suggestions == old(suggestions) && analysis == old(analysis)
    {
      sent := BeginAnalysis(resume, jobDescription);
      if sent.Some? {
        assert loading;  // the call is in flight
        FinishAnalysis(outcome);
      }
    }
  }
}
