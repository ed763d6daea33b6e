# Resume analysis of the Job Portal, in Dafny

This project models the resume-analysis core of the Job Portal front end and proves properties of that model.

The resume analyzer component sends a resume and a job description to a text-generation service inside a fixed prompt. It receives a free-text reply and extracts three things from it:

- a match score, from `Score: N`;
- a list of missing keywords, from `Missing Keywords:` up to `Suggestions:`;
- at most seven improvement suggestions, from the lines after `Suggestions:`.

Each result is stored in component state only when its pattern matched. Before the call, the request is validated. A failed call is classified into one of three error messages, and a `loading` flag covers the call. The score is shown with a label chosen by band, and only when it is positive.

Two small pure expressions from other components are modelled as well:

- the job card's description excerpt, the text before the first `.` followed by a `.`;
- the application card's status colour and status label.

Files:

- `wrappers.dfy`: the `Option` datatype.
- `js_text.dfy`: the JavaScript string operations the core relies on:
  - the ECMAScript white-space set shared by `\s` and `trim`;
  - `trim`, `split` and its inverse `join`, `map`, `filter` and `slice(0, n)`;
  - `includes`, `indexOf` and `substring` with its clamping;
  - exact and ASCII case-insensitive marker search.
- `response_parser.dfy`: `parseAnalysis`'s three regular expressions, each written as an explicit scan for its marker.
- `reply_format.dfy`: replies in the format the prompt asks for, and the proof that the parser gives back the score, and the parse of each section's text, of such a reply; a comma-joined keyword list comes back exactly.
- `resume_analyzer.dfy`: in order,
  - the failure classifier;
  - the prompt;
  - validation;
  - the score label and the panel condition;
  - the class `ResumeAnalyzer`, which holds the component state and has the methods `ParseAnalysis` and `AnalyzeResume`.
- `job_card.dfy`: the description excerpt.
- `application_card.dfy`: the status colour, the status label and the recruiter's options.
- `sample_replies.dfy`: what the model is proved to make of concrete replies, lines and error messages, among them a complete reply in the requested format.

Modelling choices:

- **Regular expressions.**
  - `/Score: (\d+)/` is case-sensitive and needs exactly one space. It takes at the first position where the marker is followed by a digit, and reads the longest run of digits there.
  - The two `/i` patterns are all ASCII. With the `i` flag and no `u` flag, such a pattern matches exactly the ASCII case-insensitive occurrences, so that is how they are modelled.
  - `$` without the `m` flag is the end of the whole reply.
- **White space.** The white-space set is the exact ECMAScript set: WhiteSpace plus LineTerminator, the same for `\s` and for `String.prototype.trim`.
- **Score.** The score is the exact natural number the digits denote. It is not clamped to 0..100.
- **Analysis split.** `analyzeResume` is modelled in two halves, so that the state while the call is in flight can be stated:
  - `BeginAnalysis`: validation, then `loading` is set and the error cleared;
  - `FinishAnalysis`: the reply or failure is handled, then `loading` is cleared.
- **Behaviour of the code as written that a reader may not expect:**
  - the score marker is the literal `Score: ` with one space;
  - validation does not trim the job description, so a description of only spaces passes;
  - from the initial score 0, a score of 0 is indistinguishable from no score, because the panel needs `score > 0`; after a positive score the two differ, since a reply with no score keeps the earlier score and the panel visible, while `Score: 0` hides it.

## Model

| member | source | states |
|---|---|---|
| ResponseParser.FindScore | src/components/ResumeAnalyzer.jsx:56 | the first position from which `Score: ` followed by a digit matches, or that there is none |
| ResponseParser.DigitRun | src/components/ResumeAnalyzer.jsx:56 | `(\d+)` takes the longest run of digits at the position: all digits, copied from the text, followed by a non-digit or the end |
| ResponseParser.Score | src/components/ResumeAnalyzer.jsx:56-58 | no score exactly when `Score: ` plus a digit occurs nowhere; otherwise the decimal value (`DecimalValue`, standing for `parseInt`) of the maximal digit run at the first such occurrence, with no clamping |
| ResponseParser.Decimal | src/components/ResumeAnalyzer.jsx:58 | every natural number has a digit string without leading zeros whose value under `DecimalValue`, the model of `parseInt` on a digit run, is that number |
| ResponseParser.DigitRunIs | src/components/ResumeAnalyzer.jsx:56 | a digit string followed by a non-digit is the whole captured group |
| ResponseParser.ScoreOfLeadingDigits | src/components/ResumeAnalyzer.jsx:56-58 | a reply starting with `Score: ` and digits yields the value of those digits |
| ResponseParser.ScoreOfFirstLine | src/components/ResumeAnalyzer.jsx:56-58 | a reply whose first line is `Score: N`, as the prompt asks, yields N |
| ResponseParser.NoScoreWithoutMarker | src/components/ResumeAnalyzer.jsx:56-57 | without the case-sensitive literal `Score: ` there is no score |
| ResponseParser.KeywordsSpan | src/components/ResumeAnalyzer.jsx:62 | the keyword group starts right after the first case-insensitive `Missing Keywords:`; it ends at the nearest following `Suggestions:`, or at the end when none follows, with no `Suggestions:` in between; it is absent exactly when the marker is |
| ResponseParser.KeywordsSliceHasNoSuggestions | src/components/ResumeAnalyzer.jsx:62 | suggestion text never leaks into the keyword slice (`KeywordsSlice`, the text of the capture group between the bounds of `KeywordsSpan`): it has no `Suggestions:` in it |
| ResponseParser.MatchInSlice | src/components/ResumeAnalyzer.jsx:62 | an occurrence inside the captured slice is an occurrence in the reply |
| ResponseParser.Keywords | src/components/ResumeAnalyzer.jsx:64-67 | every keyword is non-empty, trimmed and comma-free |
| ResponseParser.TrimmedPiecesAreKeywords | src/components/ResumeAnalyzer.jsx:65-67 | the trimmed, non-empty comma-free pieces are keywords |
| ResponseParser.KeywordsConcat | src/components/ResumeAnalyzer.jsx:64-67 | the keywords of `a,b` are those of `a` followed by those of `b`, so order and duplicates are kept |
| ResponseParser.KeywordsOfPiece | src/components/ResumeAnalyzer.jsx:64-67 | a comma-free piece gives its trimmed text, or nothing when that is empty |
| ResponseParser.KeywordsOfJoin | src/components/ResumeAnalyzer.jsx:64-67 | a list of keywords joined with commas splits, trims and filters back into exactly that list |
| ResponseParser.MissingKeywords | src/components/ResumeAnalyzer.jsx:62-68 | a keyword list exists exactly when `Missing Keywords:` occurs case-insensitively, and its elements are keywords |
| ResponseParser.TrimKeepsStart | src/components/ResumeAnalyzer.jsx:76-78 | trimming a string that starts with a non-space keeps that start |
| ResponseParser.CleanSuggestion | src/components/ResumeAnalyzer.jsx:78 | a cleaned line (`StripBullets`, the `replace` of the leading run of bullet characters, then `trim`) is trimmed, does not start with a bullet, digit, `.` or space, and uses only characters of the line |
| ResponseParser.CleanLines | src/components/ResumeAnalyzer.jsx:74-79 | every cleaned line is a suggestion: non-empty, trimmed, not starting with a bullet character, one line |
| ResponseParser.TrimKeepsOut | src/components/ResumeAnalyzer.jsx:66 | trimming pieces that lack a character keeps that character out and leaves them trimmed |
| ResponseParser.CleanKeepsOut | src/components/ResumeAnalyzer.jsx:78 | cleaning lines adds no character to them |
| ResponseParser.CleanLinesConcat | src/components/ResumeAnalyzer.jsx:74-79 | the cleaned lines of two newline-separated parts are those of each part, in order |
| ResponseParser.CleanLinesOfLine | src/components/ResumeAnalyzer.jsx:74-79 | a single line gives its cleaned text, or nothing |
| ResponseParser.Suggestions | src/components/ResumeAnalyzer.jsx:74-80 | at most seven suggestions, each well formed |
| ResponseParser.SuggestionsArePrefix | src/components/ResumeAnalyzer.jsx:80 | the suggestions are exactly the first seven cleaned lines, or all of them when there are fewer, in order |
| ResponseParser.SuggestionsStart | src/components/ResumeAnalyzer.jsx:72 | the suggestion group starts right after the first case-insensitive `Suggestions:`, and is absent exactly when the marker is |
| ResponseParser.SuggestionList | src/components/ResumeAnalyzer.jsx:72-81 | a suggestion list exists exactly when `Suggestions:` occurs case-insensitively, and it is well formed |
| ReplyFormat.FormattedScore | src/components/ResumeAnalyzer.jsx:56-58 | a reply in the requested format yields its score |
| ReplyFormat.FormattedKeywords | src/components/ResumeAnalyzer.jsx:62-68 | a reply in the requested format yields the keywords of its keyword section and nothing from its suggestions |
| ReplyFormat.FormattedSuggestions | src/components/ResumeAnalyzer.jsx:72-81 | a reply in the requested format yields the suggestions of its suggestion section |
| ReplyFormat.ParseFormattedReply | src/components/ResumeAnalyzer.jsx:54-83 | for every score, every keyword text free of the `Suggestions:` marker and every suggestion text (which may contain the marker), parsing the formatted reply gives back that score, the `Keywords` of the keyword text and the `Suggestions` of the suggestion text, i.e. the parse of each section on its own; the exact list round trip for keywords is `ParseFormattedKeywordList` |
| ReplyFormat.ParseFormattedKeywordList | src/components/ResumeAnalyzer.jsx:62-68 | a list of keywords written comma-separated in the keyword section of a formatted reply is recovered as exactly that list |
| ReplyFormat.FreeWithoutU | src/components/ResumeAnalyzer.jsx:62 | a keyword text without the letter u cannot contain `Suggestions:` |
| ReplyFormat.KeywordsBetweenMarkers | src/components/ResumeAnalyzer.jsx:62 | the keyword slice is the text between the two markers |
| ReplyFormat.SuggestionsAfterFirstMarker | src/components/ResumeAnalyzer.jsx:72 | the suggestion list is built from the text after the first `Suggestions:` |
| ResumeAnalysis.ClassifyFailure | src/components/ResumeAnalyzer.jsx:129-135 | invalid key exactly when the message contains `API key`; model access exactly when it does not but contains `model`; generic exactly when it contains neither; case-sensitive |
| ResumeAnalysis.FailureMessagesDistinct | src/components/ResumeAnalyzer.jsx:87-134 | the messages `FailureMessage` gives for the three kinds of failure (the strings at :130-134) differ from each other and from the validation message at :87 |
| ResumeAnalysis.BuildPrompt | src/components/ResumeAnalyzer.jsx:98-114 | the prompt `Interpolates` the template: the fixed instructions, then the resume text verbatim, then the fixed middle (the `Job Description:` block), then the job description verbatim, then the fixed closing, each at its place and nothing else |
| ResumeAnalysis.BuildPromptInjective | src/components/ResumeAnalyzer.jsx:98-114 | two requests with resume texts of the same length give the same prompt only if they are the same request |
| ResumeAnalysis.InterpolationInjective | src/components/ResumeAnalyzer.jsx:98-114 | filling the template with parts of equal first length gives equal text only for equal parts |
| ResumeAnalysis.InterpolatedParts | src/components/ResumeAnalyzer.jsx:98-114 | the concatenation of the five parts `Interpolates` them: where each part, fixed or interpolated, lies in the prompt |
| ResumeAnalysis.RequestPrompt | src/components/ResumeAnalyzer.jsx:86-114 | a prompt is produced exactly when `IsValidRequest` holds, that is a resume is present and the job description is not the empty string (the test at :86, with no trimming), and it is the prompt built from them |
| ResumeAnalysis.ScoreLabel | src/components/ResumeAnalyzer.jsx:218-221 | each of the four labels is chosen exactly on its band: at least 80, 60 to 79, 40 to 59, below 40 |
| ResumeAnalysis.ScoreLabelMonotone | src/components/ResumeAnalyzer.jsx:218-221 | a higher score never gets a worse label |
| ResumeAnalysis.ScoreAfter | src/components/ResumeAnalyzer.jsx:56-59 | the score is replaced by the parsed one when the pattern matched and kept otherwise |
| ResumeAnalysis.KeywordsAfter | src/components/ResumeAnalyzer.jsx:62-69 | the keyword list is replaced when the pattern matched and kept otherwise, and stays a list of keywords |
| ResumeAnalysis.SuggestionsAfter | src/components/ResumeAnalyzer.jsx:72-82 | the suggestion list is replaced when the pattern matched and kept otherwise, and stays well formed |
| ResumeAnalysis.ZeroScoreLooksAbsent | src/components/ResumeAnalyzer.jsx:206 | from the initial score 0, the result panel, shown when `ShowsResults` holds (the `score > 0` test), stays hidden exactly when the reply had no score or a score of 0 |
| ResumeAnalysis.PanelAfterReply | src/components/ResumeAnalyzer.jsx:206 | after any earlier score (kept by `ScoreAfter` when the reply has no match), the panel is shown exactly when the reply's score is positive or, for a reply with no score, the earlier score is; so after a positive score no score keeps the panel and `Score: 0` hides it |
| ResumeAnalysis.ResumeAnalyzer.constructor | src/components/ResumeAnalyzer.jsx:12-17 | the initial state: no analysis, not loading, score 0, no error, empty lists |
| ResumeAnalysis.ResumeAnalyzer.StoreScore | src/components/ResumeAnalyzer.jsx:56-59 | only the score changes, and only when the score pattern matched |
| ResumeAnalysis.ResumeAnalyzer.StoreKeywords | src/components/ResumeAnalyzer.jsx:62-69 | only the keyword list changes, and only when the keywords pattern matched |
| ResumeAnalysis.ResumeAnalyzer.StoreSuggestions | src/components/ResumeAnalyzer.jsx:72-82 | only the suggestion list changes, and only when the suggestions pattern matched |
| ResumeAnalysis.ResumeAnalyzer.ParseAnalysis | src/components/ResumeAnalyzer.jsx:54-83 | each of the three result fields is written only when its pattern matched and keeps its previous value otherwise; no other field changes; the lists stay well formed |
| ResumeAnalysis.ResumeAnalyzer.BeginAnalysis | src/components/ResumeAnalyzer.jsx:86-114 | an invalid request sets the validation error and returns with `loading` untouched and no prompt; a valid one sets `loading`, clears the error and yields the prompt |
| ResumeAnalysis.ResumeAnalyzer.FinishAnalysis | src/components/ResumeAnalyzer.jsx:125-138 | a reply is parsed into the fields and stored as the analysis; a failure sets the classified message and changes no result field; `loading` is false afterwards either way |
| ResumeAnalysis.ResumeAnalyzer.AnalyzeResume | src/components/ResumeAnalyzer.jsx:85-139 | the prompt sent is the one for the request, or none after a validation error, which changes nothing else; otherwise `loading` ends false, and the reply's fields or the failure's classified message are stored |
| JobCard.Excerpt | src/components/job-card.jsx:114 | the excerpt is a dot-free prefix of the description; it is followed by the first `.` when there is one, and it is empty when there is none |
| JobCard.RenderedIsFirstSentence | src/components/job-card.jsx:114 | with a `.`, the card's text (`RenderedExcerpt`, the excerpt with a `.` appended) is the description up to and including its first `.` |
| JobCard.RenderedWithoutDot | src/components/job-card.jsx:114 | without a `.`, the card's text `RenderedExcerpt` is only `.` |
| JobCard.ExcerptOfLeadingDot | src/components/job-card.jsx:114 | a description starting with `.` has an empty excerpt |
| JobCard.ExcerptDropsDotlessDescription | src/components/job-card.jsx:114 | the description `Remote role` is shown as `.` |
| JobCard.FirstSentence | src/components/job-card.jsx:114 | the intended excerpt: a dot-free prefix that is the whole description or stops at its first `.` |
| JobCard.FirstSentenceNonEmpty | src/components/job-card.jsx:114 | the intended excerpt is empty only for an empty description or one that starts with `.` |
| ApplicationCard.StatusColor | src/components/application-card.jsx:32-45 | applied gets blue, interviewing yellow, hired green and rejected red; gray exactly for any other status; always one of the five classes |
| ApplicationCard.KnownColorsDistinct | src/components/application-card.jsx:33-41 | the four recognised statuses get four different colours |
| ApplicationCard.StatusLabel | src/components/application-card.jsx:96 | same length as the status; its first character upper-cased and the rest unchanged; empty for an empty status |
| ApplicationCard.LabelOfLowerInitial | src/components/application-card.jsx:96 | a status starting with a lower-case letter shows that letter upper-cased, followed by the rest |
| ApplicationCard.RecruiterOptionsAreKnown | src/components/application-card.jsx:96-110 | each selectable option is a recognised status, never gets the gray default, and its caption is its label |
| ApplicationCard.KnownStatusesAreOptions | src/components/application-card.jsx:107-110 | the recognised statuses are exactly the selectable ones |
| JsText.Trim | src/components/ResumeAnalyzer.jsx:66 | `trim` gives a trimmed result, empty exactly when the input is only white space |
| JsText.TrimIsInfix | src/components/ResumeAnalyzer.jsx:66 | the trimmed string is the input with white space removed at both ends |
| JsText.TrimIdempotent | src/components/ResumeAnalyzer.jsx:76-78 | trimming twice is trimming once |
| JsText.TrimPadded | src/components/ResumeAnalyzer.jsx:66 | a trimmed word with white space around it trims to the word |
| JsText.Split | src/components/ResumeAnalyzer.jsx:65-75 | `split` yields at least one piece and no piece contains the separator |
| JsText.JoinSplit | src/components/ResumeAnalyzer.jsx:65-75 | joining the pieces with the separator gives back the text |
| JsText.SplitJoin | src/components/ResumeAnalyzer.jsx:65-75 | splitting a join of separator-free pieces gives back the pieces |
| JsText.SplitConcat | src/components/ResumeAnalyzer.jsx:65-75 | splitting `a` + separator + `b` gives the pieces of `a` followed by those of `b` |
| JsText.SplitCons | src/components/ResumeAnalyzer.jsx:65-75 | `split` of a string seen as its first character and the rest: a separator starts a new empty first piece, any other character is put in front of the first piece (`Push`) |
| JsText.FilterConcat | src/components/ResumeAnalyzer.jsx:67-79 | filtering distributes over concatenation, keeping order |
| JsText.Take | src/components/ResumeAnalyzer.jsx:80 | `slice(0, n)` is the prefix of length min(n, length), and keeps only elements of the input |
| JsText.FindCI | src/components/ResumeAnalyzer.jsx:62-72 | the first case-insensitive occurrence at or after a position, or that there is none |
| JsText.Find | src/components/ResumeAnalyzer.jsx:129-131 | the first exact occurrence at or after a position, or that there is none |
| JsText.Map | src/components/ResumeAnalyzer.jsx:66-78 | `map` keeps the length and applies the function at every index |
| JsText.Filter | src/components/ResumeAnalyzer.jsx:67-79 | `filter` keeps only elements that pass, from the input; it keeps all of a list whose elements all pass and none of one whose elements all fail |
| JsText.Includes | src/components/ResumeAnalyzer.jsx:129-131 | `includes` is true exactly when the pattern occurs somewhere |
| JsText.IndexOf | src/components/job-card.jsx:114 | `indexOf` is the first occurrence, or -1 when there is none |
| JsText.Substring | src/components/job-card.jsx:114 | `substring` takes the text between its two ends in either order, and is empty when both ends are at or below 0, as with an `indexOf` of -1 |
| SampleReplies.CleanRun | src/components/ResumeAnalyzer.jsx:78 | a run of bullet characters before a trimmed text that does not start with one is cleaned away, leaving exactly that text |
| SampleReplies.CleanBulletDot | src/components/ResumeAnalyzer.jsx:78 | `• Add metrics` cleans to `Add metrics` |
| SampleReplies.CleanNumbered | src/components/ResumeAnalyzer.jsx:78 | `1. Quantify impact` cleans to `Quantify impact` |
| SampleReplies.CleanHyphen | src/components/ResumeAnalyzer.jsx:78 | `- Use action verbs` cleans to `Use action verbs` |
| SampleReplies.CleanLeadingNumber | src/components/ResumeAnalyzer.jsx:78 | a suggestion that starts with a number loses it |
| SampleReplies.KeywordsOfPadded | src/components/ResumeAnalyzer.jsx:64-67 | three padded, comma-separated keywords give the three keywords, in order |
| SampleReplies.KeywordsOfList | src/components/ResumeAnalyzer.jsx:64-67 | ` Python, SQL, Docker` followed by a newline gives `Python`, `SQL`, `Docker` |
| SampleReplies.ScoreNotClamped | src/components/ResumeAnalyzer.jsx:56-58 | a three-digit score of 100 or more is stored as it is |
| SampleReplies.LowerCaseScoreIgnored | src/components/ResumeAnalyzer.jsx:56 | `score: 72` has no score: the marker is case-sensitive |
| SampleReplies.UnspacedScoreIgnored | src/components/ResumeAnalyzer.jsx:56 | `Score:72` has no score: the marker needs its space |
| SampleReplies.CleanTwoBulletedLines | src/components/ResumeAnalyzer.jsx:74-79 | a blank line and two bulleted lines give the two suggestions, in order |
| SampleReplies.SampleReplyParsed | src/components/ResumeAnalyzer.jsx:54-83 | a complete reply in the requested format gives score 72, three keywords and two suggestions |
| SampleReplies.InvalidKeyFailure | src/components/ResumeAnalyzer.jsx:129-130 | `Invalid API key provided` is the invalid-key error |
| SampleReplies.ModelFailure | src/components/ResumeAnalyzer.jsx:131-132 | `model not found` is the model-access error |
| SampleReplies.TimeoutFailure | src/components/ResumeAnalyzer.jsx:133-134 | `network timeout` is the generic error |

## Left out

- The API-key lookup from the environment and the configuration-error screen shown without a key (src/components/ResumeAnalyzer.jsx:20-34): these are rendering and build configuration, and the model assumes a key is present.
- The file reader (src/components/ResumeAnalyzer.jsx:44-52, :94): browser I/O with a callback. The resume is the text it yields, or `None` when no file was chosen.
- The client construction and the `generateContent` call (src/components/ResumeAnalyzer.jsx:36, :96, :116-123): a foreign network call. Its result is the `Outcome` parameter: a reply, or an exception with a string `message`, which is classified.
- Two paths of the code have no case in `Outcome`.
  - A failed file read (src/components/ResumeAnalyzer.jsx:44-52): the promise settles only in `onload`, with no `onerror` and no reject. When the read fails, the `await` at :94 never settles, nothing is classified, `loading` stays true from :91, and the button stays disabled (:198).
  - A thrown value without a `message`: `error.message.includes` at :129 throws inside the `catch`. The `finally` still clears `loading`, but `error` stays null.
- The asynchrony of `analyzeResume`: React's batching of state updates, and a second click while a call is in flight (the button is disabled while `loading` is set). The two halves `BeginAnalysis` and `FinishAnalysis` mark the one point where the call is in flight.
- `console.error`, all JSX rendering, the progress bar and the CSS classes other than the status colours. The panel condition `score > 0` and the score label are modelled.
- ResponseParser.Score: `parseInt` yields a floating-point number, which loses precision on very long digit runs. The model gives the exact natural number.
- JsText.FindCI: full Unicode case folding is not modelled. The `/i` patterns are ASCII and there is no `u` flag, so ASCII folding is the exact JavaScript behaviour for them.
- ApplicationCard.StatusLabel: `toUpperCase` upper-cases only ASCII letters in the model. JavaScript upper-cases any letter and can lengthen a character (`ß` becomes `SS`); the recognised statuses are all ASCII.
- UTF-16: a JavaScript string is a sequence of UTF-16 code units, and the model's strings are sequences of Dafny characters (Unicode scalar values). The two coincide for every character of the Basic Multilingual Plane. For the modelled operations the results agree: no marker, bullet, separator, white-space character or `.` is a surrogate, and `indexOf` and `substring` count positions in the same units as each other. A reply holding characters outside that plane, such as emoji, would have different positions and lengths in the model.
- The job card's save and delete fetches, the saved-job effect, and the application card's download, status-update fetch and date formatting: I/O and locale-dependent formatting.

## Findings

| source | as written | input that shows it | evidently intended | confidence | as-written member | corrected member |
|---|---|---|---|---|---|---|
| src/components/job-card.jsx:114 | `substring(0, indexOf("."))` with `.` appended: when the description has no `.`, `indexOf` gives -1, `substring` clamps it to 0, and the card shows only `.` | the description `Remote role` is shown as `.` | the whole description when it has no `.`, so the excerpt is empty only for an empty description or one that starts with `.` | not executed | JobCard.ExcerptDropsDotlessDescription | JobCard.FirstSentenceNonEmpty |
