# EduBot quiz and chat logic in Dafny

EduBot generates multiple-choice quizzes with a language model and lets a
student take them in the browser. This project models the logic behind that
and proves properties of it:

- **Quiz session engine.** The results screen keeps a state: selections, revealed hints, eliminated options, skipped questions, three hints, one 50/50 and one skip, and the "answers shown" flag. The engine covers the handlers that change that state and the scoring done on submit. Submit reports missed questions to the performance tracker, unlocks achievements and picks feedback.
- **Feedback selector.** It puts a percentage into one of four tiers and fills a caption template.
- **Performance tracker.** It keeps an append-only log of the topics of missed questions and suggests the most frequent one.
- **Achievement ledger.** It is a map from achievement id to "unlocked".
- **Quiz route.** The server checks a quiz request in a fixed order and strips markdown fences from the model's reply. It then sorts failures into error messages.
- **Chat widget.** It has open and full-screen flags and appends to the transcript on a send or a follow-up suggestion. Before a reply is spoken, its markdown is cleaned up.

Everything is pure functions over immutable datatypes. The files are:

- `options.dfy`: `Option`.
- `text.dfy`: the parts of JavaScript's string library the code relies on: the `trim`/`\s` whitespace set, `trim`, `includes`, `indexOf`, `replace` with a string pattern, and number-to-decimal text.
- `feedback.dfy`, `performance.dfy`, `achievements.dfy`, `quiz_session.dfy`, `quiz_route.dfy` and `chatbot.dfy`: one module per source component.

Some inputs are parameters instead:

- Browser storage is a value: absent, unreadable, or the saved document.
- Random choices are index parameters. The 50/50 shuffle is a permutation of the wrong options.
- The model API's answer and `JSON.parse` are both parameters.

Some conditions are enforced only by the page, which hides or disables a control. Where the handler does not test such a condition itself, it is a precondition of the modelled handler.

Where the code does something other than what one might expect of the application, the model follows the code:

- Eliminating options does not clear a selection already made.
- Skipping a question does not clear its selection.
- The submit handler has no guard of its own against running twice. It runs at most once only because its button disappears once answers are shown.

`QuizSession.EliminationKeepsSelection` exhibits the first point.

## Model

| member | source | states |
|---|---|---|
| Text.Trim | frontend/src/components/Chatbot.jsx:48 | `trim` returns the infix after the leading whitespace, with only whitespace after it and no whitespace at either end |
| Text.TrimIdempotent | routes/quiz.js:51 | trimming twice is trimming once |
| Text.TrimKeepsWords | frontend/src/components/Chatbot.jsx:48 | `trim` keeps every non-whitespace character, as often as it occurs |
| Text.TrimEmptyIffAllSpace | routes/quiz.js:15 | `s.trim() === ''` holds exactly for strings made only of whitespace |
| Text.TrimSplit | frontend/src/components/Chatbot.jsx:48 | every string is its leading whitespace, its trim, and its trailing whitespace |
| Text.TrimUnique | frontend/src/components/Chatbot.jsx:48 | whitespace, then text with no whitespace at either end, then whitespace, trims to exactly that text |
| Text.TrimDropsTrailing | frontend/src/components/Chatbot.jsx:48 | whitespace added at the end does not change the trim |
| Text.TrimDropsLeading | frontend/src/components/Chatbot.jsx:48 | whitespace added at the front does not change the trim |
| Text.TrimJoin | frontend/src/components/Chatbot.jsx:48 | two texts joined by a space, the first not ending and the second not starting with whitespace, trim to their trims joined by that space |
| Text.Substitution | frontend/src/utils/feedbackUtils.js:72 | the text `replace` inserts for a replacement string is that string when it has no `$` |
| Text.SubstitutionPatterns | frontend/src/utils/feedbackUtils.js:72 | in a replacement string `$$` inserts one `$` and `$&` the matched text; `$` before any other character (`$1` with a string pattern) stays as written |
| Text.SubstitutionContext | frontend/src/utils/feedbackUtils.js:72 | in a replacement string `` $` `` inserts the text before the match and `$'` the text after it |
| Text.ReplaceFirst | frontend/src/utils/feedbackUtils.js:72 | `replace` with a string pattern puts the expansion of the replacement's `$` patterns in place of the first occurrence and keeps the text before and after it; without an occurrence the string is unchanged; a replacement without `$` appears in the result, which changes length by the difference |
| Text.ReplaceAt | frontend/src/utils/feedbackUtils.js:72 | the first occurrence is unique, and a replacement without `$` stands where the match was |
| Text.ReplaceAfterPrefix | frontend/src/utils/feedbackUtils.js:72 | when the text before a copy of the pattern lacks the pattern's first character, that copy is the one replaced |
| Text.IndexOfFrom | frontend/src/utils/feedbackUtils.js:72 | the occurrence `replace` uses is the first one |
| Text.IntToDecimal | frontend/src/utils/feedbackUtils.js:72 | the number's text form has a minus sign exactly for negatives, no leading zero except for 0 itself, and its digits read back as the number |
| Text.DecimalRoundTrip | frontend/src/utils/feedbackUtils.js:72 | reading back a natural number's decimal text gives the number |
| Feedback.TierOf | frontend/src/utils/feedbackUtils.js:58-68 | the tier is excellent iff at least 90, good iff 70 to 89, average iff 50 to 69, needsWork iff below 50, so the bands partition the integers |
| Feedback.TierMonotone | frontend/src/utils/feedbackUtils.js:59-68 | a higher percentage never gets a lower tier |
| Feedback.TierBoundaries | frontend/src/utils/feedbackUtils.js:60-67 | 90 is excellent, 89 and 70 good, 69 and 50 average, 49 and 0 needsWork |
| Feedback.Captions | frontend/src/utils/feedbackUtils.js:1-54 | every tier has four caption templates |
| Feedback.Memes | frontend/src/utils/feedbackUtils.js:1-54 | every tier has three meme images |
| Feedback.NoBraceBefore | frontend/src/utils/feedbackUtils.js:1-54 | no caption template has a brace before its `{score}`, so that placeholder is the template's first |
| Feedback.FeedbackForScore | frontend/src/utils/feedbackUtils.js:56-76 | the caption is the chosen template of the percentage's tier with its placeholder replaced by the percentage's decimal text, and the meme is the chosen meme of that tier |
| Performance.Load | frontend/src/utils/performanceTracker.js:4-12 | a missing or unreadable document loads as the empty log |
| Performance.RecordIncorrectAnswer | frontend/src/utils/performanceTracker.js:24-29 | an empty topic changes nothing; any other topic is appended at the end with every earlier entry kept |
| Performance.RecordCounts | frontend/src/utils/performanceTracker.js:24-29 | recording a topic adds one to its count and leaves every other count unchanged |
| Performance.ClearPerformanceData | frontend/src/utils/performanceTracker.js:55-57 | after clearing, the log loads as empty |
| Performance.Tally | frontend/src/utils/performanceTracker.js:41-44 | the counts object has exactly the logged topics as keys, each with its number of occurrences |
| Performance.FirstSeen | frontend/src/utils/performanceTracker.js:47 | the keys are the distinct logged topics, in order of first appearance |
| Performance.PickMax | frontend/src/utils/performanceTracker.js:47-49 | the reduce returns a key of maximal count, and every key after it has a strictly smaller count |
| Performance.GetTopicSuggestion | frontend/src/utils/performanceTracker.js:32-52 | null iff the log is empty; otherwise a logged topic of maximal count, and among tied topics the one whose first appearance is latest |
| Performance.TieBreak | frontend/src/utils/performanceTracker.js:47-49 | because the reduce uses strict `>`, a tie goes to the topic first seen last |
| Performance.FirstIndexPrefix | frontend/src/utils/performanceTracker.js:27 | appending to the log does not move any topic's first appearance |
| Performance.ClearedHasNoSuggestion | frontend/src/utils/performanceTracker.js:55-57 | after clearing there is no suggestion |
| Performance.SuggestionExample | frontend/src/utils/performanceTracker.js:32-52 | a log of Math, Math, History suggests Math |
| Performance.TieExample | frontend/src/utils/performanceTracker.js:47-49 | a log of Math, History suggests History |
| Achievements.GetUnlocked | frontend/src/utils/achievements.js:19-27 | a missing or unreadable ledger reads as empty |
| Achievements.UnlockAchievement | frontend/src/utils/achievements.js:29-37 | returns true iff the id was not unlocked; afterwards the id is unlocked, every other entry is as before, and on false nothing changes |
| Achievements.UnlockIdempotent | frontend/src/utils/achievements.js:29-37 | a second unlock of the same id returns false and changes nothing |
| Achievements.UnlockMonotone | frontend/src/utils/achievements.js:31-33 | an unlock never revokes another achievement |
| QuizSession.Initial | frontend/src/components/QuizDisplay.jsx:24-31 | a quiz starts with no selections, three hints, one 50/50 and one skip, and answers hidden |
| QuizSession.HandleOptionSelect | frontend/src/components/QuizDisplay.jsx:34-37 | on a skipped question nothing changes; otherwise that question's selection is set or overwritten and no other selection changes |
| QuizSession.RevealHint | frontend/src/components/QuizDisplay.jsx:39-47 | ignored when the hint is shown or answers are shown; the hint is shown iff it is not shown yet, answers are hidden and hints are left, and then it marks the question and takes exactly one hint; with none left it changes nothing and reports exhaustion; hints left plus hints shown stays constant |
| QuizSession.WrongOptions | frontend/src/components/QuizDisplay.jsx:52 | the wrong options are the options with every copy of the answer removed |
| QuizSession.UseEliminateTwo | frontend/src/components/QuizDisplay.jsx:49-58 | does nothing when spent or already used on the question; otherwise it eliminates min(2, number of wrong options) options, none of them the answer and all drawn from the wrong options, and spends the power-up once |
| QuizSession.PickedAreWrong | frontend/src/components/QuizDisplay.jsx:52-53 | the first options of the shuffled wrong options are wrong options of the question |
| QuizSession.FourOptionsEliminateTwo | frontend/src/components/QuizDisplay.jsx:49-58 | with four distinct options containing the answer, exactly two options are eliminated |
| QuizSession.EliminationKeepsSelection | frontend/src/components/QuizDisplay.jsx:49-58 | an option selected before the 50/50 can end up both selected and eliminated |
| QuizSession.UseSkipQuestion | frontend/src/components/QuizDisplay.jsx:60-65 | does nothing when spent or already skipped; otherwise it marks the question skipped and spends the skip once, keeping the selection |
| QuizSession.CalculateScore | frontend/src/components/QuizDisplay.jsx:67-72 | `calculateScore` counts exactly the questions not skipped whose selection is the answer |
| QuizSession.Attempted | frontend/src/components/QuizDisplay.jsx:84 | with every skip inside the quiz, the attempted count is the number of questions not skipped |
| QuizSession.AttemptedBelow | frontend/src/components/QuizDisplay.jsx:84 | the questions not skipped plus the skipped ones make up all questions |
| QuizSession.CorrectBelowStep | frontend/src/components/QuizDisplay.jsx:67-72 | the set of correct questions below n+1 is the set below n plus question n exactly when question n is correct |
| QuizSession.ScoreBelow | frontend/src/components/QuizDisplay.jsx:67-72 | the score is the number of questions not skipped whose selection is the answer, and never exceeds the number of questions not skipped |
| QuizSession.MissedBelow | frontend/src/components/QuizDisplay.jsx:77-81 | the reported indices are exactly the questions not skipped whose selection is missing or wrong, in increasing order, and reports plus score equal the questions not skipped |
| QuizSession.ScoreBounds | frontend/src/components/QuizDisplay.jsx:67-84 | 0 ≤ score ≤ attempted ≤ number of questions, and the number of reports is attempted − score |
| QuizSession.Percentage | frontend/src/components/QuizDisplay.jsx:96 | 0 without attempts; otherwise the nearest integer to 100·score/attempted, rounding halves up; between 0 and 100, and 100 for a perfect score |
| QuizSession.PercentageBounds | frontend/src/components/QuizDisplay.jsx:96 | the quotient formula is round-half-up and stays within 0..100 |
| QuizSession.Grade | frontend/src/components/QuizDisplay.jsx:67-96 | grading reports exactly the missed questions in increasing order, counts as attempted the questions not skipped, scores the correct ones, and rounds the percentage to the nearest integer, 0 without attempts; with skips inside the quiz, reports = attempted − score and the percentage is within 0..100 |
| QuizSession.RecordTimes | frontend/src/components/QuizDisplay.jsx:77-81 | recording the topic once per miss appends it that many times, or changes nothing for an empty topic |
| QuizSession.UnlockWhen | frontend/src/components/QuizDisplay.jsx:88-93 | a conditional unlock reports a new unlock iff its condition holds and the id was not yet unlocked; afterwards the id is unlocked when the condition holds, and every other id keeps its state |
| QuizSession.Pushed | frontend/src/components/QuizDisplay.jsx:85-93 | the pushed list holds FIRST_QUIZ, NO_HINTS and PERFECT_SCORE each iff its unlock reported true, nothing else, and no id twice |
| QuizSession.SubmitUnlocks | frontend/src/components/QuizDisplay.jsx:85-94 | FIRST_QUIZ is always attempted, NO_HINTS iff no hint was used, PERFECT_SCORE iff the perfect condition holds; the new unlocks are the ids that were locked and whose condition holds, in the order FIRST_QUIZ, NO_HINTS, PERFECT_SCORE, without repeats; each id whose condition holds is unlocked afterwards, every id not listed keeps its state, and nothing is revoked |
| QuizSession.HandleSubmit | frontend/src/components/QuizDisplay.jsx:74-102 | shows the answers and changes nothing else in the session; grades as `Grade` does (exactly the missed questions reported, attempted = n − skipped, bounds and rounding of score and percentage); the log grows by the topic once per report, and not at all for an empty topic; unlocks as `SubmitUnlocks`; the feedback is `getFeedbackForScore` of the percentage |
| QuizSession.HintValid | frontend/src/components/QuizDisplay.jsx:39-47 | revealing a hint keeps the session invariant |
| QuizSession.EliminateValid | frontend/src/components/QuizDisplay.jsx:49-58 | the 50/50 keeps the session invariant |
| QuizSession.SkipValid | frontend/src/components/QuizDisplay.jsx:60-65 | skipping keeps the session invariant |
| QuizSession.StepValid | frontend/src/components/QuizDisplay.jsx:34-65 | every handler the page offers keeps the session invariant |
| QuizSession.RunValid | frontend/src/components/QuizDisplay.jsx:24-65 | every run of offered actions from a valid state ends in a valid state |
| QuizSession.ReachableValid | frontend/src/components/QuizDisplay.jsx:24-65 | in every reachable state hints left + hints shown = 3, each power-up counter + its uses = 1, no counter is negative, and no eliminated option is the answer |
| QuizRoute.Validate | routes/quiz.js:11-26 | a falsy field gives the missing-fields 400 before any other check; then a non-string or blank topic; then a count that is not a positive whole number; then a difficulty whose lower case is not easy, medium or hard; the request is accepted iff all pass |
| QuizRoute.FalsyValues | routes/quiz.js:11 | a field is falsy exactly when it is absent, `null`, `false`, `0` or the empty string; arrays, objects and infinities are truthy |
| QuizRoute.ValidationMessagesDistinct | routes/quiz.js:11-26 | the four checks answer with four different messages, so the message names the check that failed |
| QuizRoute.ToLower | routes/quiz.js:24 | lowercasing keeps the length and lowercases each character in place |
| QuizRoute.TopicCheck | routes/quiz.js:15 | the topic check rejects exactly the values that are not strings with a non-whitespace character |
| QuizRoute.DifficultyCaseInsensitive | routes/quiz.js:23-26 | the upper-case spelling of a difficulty gets the same verdict |
| QuizRoute.InfiniteCountRejected | routes/quiz.js:11-21 | a count that overflowed to an infinity passes the missing-field check and is rejected as not a positive integer |
| QuizRoute.ZeroQuestionsIsMissing | routes/quiz.js:11-13 | zero questions is reported as a missing field |
| QuizRoute.LowerOfUpper | routes/quiz.js:24 | lowercasing undoes uppercasing |
| QuizRoute.StripFences | routes/quiz.js:51 | removing the fences keeps every character that does not occur in the json fence (backtick, `j`, `s`, `o`, `n`, line feed) as often as it occurs, and adds no character |
| QuizRoute.JsonFenceDropped | routes/quiz.js:51 | a json fence at the front is dropped whole and the rest is stripped |
| QuizRoute.FenceDropped | routes/quiz.js:51 | a bare fence at the front that does not begin a json fence is dropped whole |
| QuizRoute.CharKept | routes/quiz.js:51 | a character that does not begin a fence stays in its place; with the two lemmas above this decides the stripping of every text |
| QuizRoute.StripAppend | routes/quiz.js:51 | stripping keeps the order of the text: when the first part ends in a character no fence contains, the two parts are stripped independently |
| QuizRoute.StripKeepsLeadingTicks | routes/quiz.js:51 | stripping keeps up to two leading backticks of a string that does not start with a fence |
| QuizRoute.StripLeavesNoFence | routes/quiz.js:51 | no triple backtick is left after stripping, even where a removal brings backticks together |
| QuizRoute.StripWithoutFences | routes/quiz.js:51 | a string without fences is left as it is |
| QuizRoute.Clean | routes/quiz.js:51 | the cleaned reply contains no triple backtick and has no whitespace at either end |
| QuizRoute.CleanIdempotent | routes/quiz.js:51 | cleaning twice is cleaning once |
| QuizRoute.CleanFencedExample | routes/quiz.js:51 | a reply fenced as json comes out as the bare array |
| QuizRoute.FailureMessage | routes/quiz.js:69-72 | a SyntaxError maps to the parse-failure message and every other failure to the generic message |
| QuizRoute.GenerateQuiz | routes/quiz.js:7-74 | invalid requests get 400 with their check's message; then a missing key gives 500; a quiz is answered iff the request is valid, the key is set, the API replied, and the cleaned reply parses; otherwise a 500 with the classified message |
| QuizRoute.ValidationBeforeKey | routes/quiz.js:11-34 | an invalid request gets the same answer whatever the key and the API's reply |
| Chatbot.ToggleChat | frontend/src/components/Chatbot.jsx:18-23 | flips the open flag; closing leaves full screen off; nothing else changes |
| Chatbot.ToggleFullScreen | frontend/src/components/Chatbot.jsx:25-27 | flips full screen in an open window |
| Chatbot.CloseReopen | frontend/src/components/Chatbot.jsx:18-23 | closing and reopening shows the window not full screen, with the transcript kept |
| Chatbot.BotMessage | frontend/src/components/Chatbot.jsx:124-140 | a reply carries the three suggestions, the apology carries none |
| Chatbot.HandleSend | frontend/src/components/Chatbot.jsx:114-144 | blank input changes nothing; otherwise exactly the user message and then one bot message are appended, earlier messages kept, and the input cleared |
| Chatbot.SuggestionPrompt | frontend/src/components/Chatbot.jsx:152-156 | each suggestion's prompt quotes the earlier question |
| Chatbot.HandleSuggestion | frontend/src/components/Chatbot.jsx:146-186 | acts only when the last message is the bot's; then it appends a user prompt quoting the message two from the end and one bot message, clears the input, and keeps the window's open and full-screen flags |
| Chatbot.ExtendPair | frontend/src/components/Chatbot.jsx:117-140 | adding a user message and then a bot message keeps the transcript alternating |
| Chatbot.LastTwo | frontend/src/components/Chatbot.jsx:147-150 | an alternating transcript ends with a user message followed by the bot's |
| Chatbot.SendAlternates | frontend/src/components/Chatbot.jsx:114-144 | a send keeps the transcript alternating between user and bot |
| Chatbot.SuggestionAlternates | frontend/src/components/Chatbot.jsx:146-186 | in an alternating transcript a suggestion always acts, quotes a user message, and keeps the alternation |
| Chatbot.RunLength | frontend/src/components/Chatbot.jsx:44-47 | the run matched by `+` is the maximal run of the class |
| Chatbot.BulletsRemovedBy | frontend/src/components/Chatbot.jsx:44 | the bullet pass leaves no star directly followed by whitespace; every character other than a star or whitespace keeps its count, and no character is added (which stars go is stated by the lemmas below) |
| Chatbot.BulletDropped | frontend/src/components/Chatbot.jsx:44 | a star followed by a whitespace run, and then by text that does not start with whitespace, is removed together with the whole run |
| Chatbot.StarKept | frontend/src/components/Chatbot.jsx:44 | a star not followed by whitespace stays in its place |
| Chatbot.OtherKept | frontend/src/components/Chatbot.jsx:44 | every character other than a star stays in its place; with the two lemmas above this decides the pass on every text |
| Chatbot.StarsRemoved | frontend/src/components/Chatbot.jsx:44 | exactly one star is removed per star directly followed by whitespace, so the stars that remain are those not followed by whitespace |
| Chatbot.BulletsAppend | frontend/src/components/Chatbot.jsx:44 | the bullet pass keeps the order of the text: text ending in neither a star nor whitespace is cleaned independently of what follows it |
| Chatbot.RemoveBackticks | frontend/src/components/Chatbot.jsx:45 | removes every backtick and keeps every other character as often as it occurs |
| Chatbot.BackticksAppend | frontend/src/components/Chatbot.jsx:45 | the backtick pass keeps the order of the text: it distributes over concatenation |
| Chatbot.RunsCollapsedBy | frontend/src/components/Chatbot.jsx:46-47 | a collapsing pass leaves no two class characters adjacent when the space is in the class; every character outside the class other than the space keeps its count, no other character is added, and only empty text becomes empty |
| Chatbot.CollapseWholeRun | frontend/src/components/Chatbot.jsx:46-47 | a whole run of the class becomes exactly one space |
| Chatbot.CollapseAppend | frontend/src/components/Chatbot.jsx:46-47 | where no run of the class spans the seam, collapsing distributes over concatenation, so each run is replaced in place and the order is kept |
| Chatbot.CollapseKeepsFirst | frontend/src/components/Chatbot.jsx:46-47 | a first character outside the class stays first |
| Chatbot.CollapseKeepsLast | frontend/src/components/Chatbot.jsx:46-47 | a last character outside the class stays last |
| Chatbot.CollapseThree | frontend/src/components/Chatbot.jsx:46-47 | a text in three parts, with no run of the class across either seam, collapses part by part |
| Chatbot.NewlinesOfSpace | frontend/src/components/Chatbot.jsx:46 | the line-feed pass turns whitespace into whitespace, and non-empty whitespace into non-empty whitespace |
| Chatbot.SpacedJoin | frontend/src/components/Chatbot.jsx:46-47 | whitespace between a text not ending and a text not starting with whitespace becomes a single space, and each side is collapsed on its own |
| Chatbot.SpacedEnds | frontend/src/components/Chatbot.jsx:46-47 | both collapsing passes keep a first and a last character that is not whitespace |
| Chatbot.SpeechOfBullet | frontend/src/components/Chatbot.jsx:44-48 | a reply that starts with a bullet is spoken as the reply without it |
| Chatbot.BulletExample | frontend/src/components/Chatbot.jsx:44-48 | "* Hi" is spoken as "Hi" |
| Chatbot.SpeechText | frontend/src/components/Chatbot.jsx:44-48 | the spoken text keeps every character that is not a star, backtick or whitespace, as often as it is written; it has no backtick; its only whitespace is single spaces, never two side by side and never at either end |
| Chatbot.CleanupCounts | frontend/src/components/Chatbot.jsx:44-47 | the passes before trimming keep every character that is not a star, a backtick or whitespace, as often as it occurs |
| Chatbot.SpeechOfPlain | frontend/src/components/Chatbot.jsx:44-48 | text with no star and no backtick is spoken as its collapsed text, trimmed |
| Chatbot.SpacedTrimTrailing | frontend/src/components/Chatbot.jsx:46-48 | trailing whitespace is gone after collapsing and trimming |
| Chatbot.SpacedTrimLeading | frontend/src/components/Chatbot.jsx:46-48 | leading whitespace is gone after collapsing and trimming |
| Chatbot.SpacedTrimJoin | frontend/src/components/Chatbot.jsx:46-48 | two texts that are not all whitespace, joined by a space, collapse and trim to their own results joined by one space |
| Chatbot.SpeechJoin | frontend/src/components/Chatbot.jsx:44-48 | two pieces of text without stars or backticks, each with a non-whitespace character, joined by a space, are spoken as the two spoken pieces with one space between them: words stay apart and in order |
| Chatbot.SpacedText | frontend/src/components/Chatbot.jsx:46-47 | after both collapsing passes whitespace is single spaces and no backtick is present |
| Chatbot.TrimmedText | frontend/src/components/Chatbot.jsx:48 | trimming keeps those properties and removes end whitespace |
| Chatbot.BulletsWithoutStar | frontend/src/components/Chatbot.jsx:44 | text without a star is untouched by the bullet pass |
| Chatbot.BackticksWithout | frontend/src/components/Chatbot.jsx:45 | text without a backtick is untouched by the backtick pass |
| Chatbot.CollapseSingleSpaces | frontend/src/components/Chatbot.jsx:46-47 | text whose whitespace is already single spaces is untouched by a collapsing pass |
| Chatbot.PlainTextSpokenAsIs | frontend/src/components/Chatbot.jsx:44-48 | plain text with single spaces and no markdown characters is spoken exactly as written |

## Left out

- Rendering and styling: the JSX markup, icons and classes, the achievements panel, and the Tailwind and Vite configuration.
- Network I/O: the calls to the model API and to the chat endpoint, the client calls in `App.jsx`, and `routes/chatbot.js`. Their outcomes are parameters (`QuizRoute.Upstream`, `Chatbot.Outcome`).
- JSON handling: `JSON.parse` is the parameter `parse`, where `None` stands for a `SyntaxError`. `JSON.stringify` and the shape of stored documents are not modelled. A stored document is either the saved log or ledger, or unreadable.
- Storage exceptions beyond "a failed load reads as empty", and failures when saving.
- Speech synthesis and recognition: only the text cleanup before speaking is modelled.
- Randomness: caption and meme picks are index parameters, and the 50/50 shuffle is any permutation of the wrong options. Uniformity is not modelled.
- QuizSession.Percentage: computed on the exact ratio, not on the floating-point path of `Math.round((score / attempted) * 100)`. The two can differ by one on a tie that floating point rounds below one half.
- Performance.FirstSeen: lists the counts object's keys in order of first appearance. JavaScript lists integer-like keys (such as "42") first, in numeric order, and omits a `__proto__` key; neither is modelled.
- Performance.Tally: counts every topic as an ordinary key. In `performanceTracker.js` the counts object is a plain `{}`, so a topic named after an inherited property (`constructor`, `toString`, `__proto__`, …) starts from that property instead of 0, or is not stored at all. The model treats topics as plain names because JavaScript's prototype chain is outside it.
- Performance.GetTopicSuggestion: for the same reason, logs with topics named after inherited properties are not modelled. There the tracker can suggest a less frequent topic (`["Math", "Math", "constructor"]` gives "constructor"), or throw a `TypeError` from `reduce` on an empty key list (`["__proto__"]`).
- QuizRoute.Validate: a truthy difficulty that is not a string makes `toLowerCase` throw a `TypeError`. The model states a precondition instead.
- QuizRoute.Validate: finite numbers are exact reals, not doubles. A numeral that rounds to a whole double (such as `2.0000000000000001`) is accepted by the route but rejected by the model. A numeral that underflows to zero (such as `1e-400`) is reported by the route as a missing field, while the model answers `BadCount`. Numerals that overflow to an infinity are modelled (`JInfinite`).
- QuizSession.HandleSubmit: every question carries an `answer` string. A generated question without one is not modelled, because the question record has a fixed shape. The page would count such a question as correct when it is left unanswered (`undefined === undefined`) and would not report it.
- Strings are sequences of Unicode code points. JavaScript strings are sequences of UTF-16 code units and may hold unpaired surrogates, which the model cannot express. None of the modelled patterns matches a surrogate.
- Lowercasing covers ASCII letters only. No other character lowercases to a letter of easy, medium or hard, so the difficulty check is decided the same way.
- A model reply without the expected text field makes reading it throw. That case is folded into `RequestFailed`, which gets the same generic message.
- `utils/generatePrompt.js`: the prompt template is not part of this model.
- `QuizForm.jsx`, `App.jsx` and `index.js`: form state, page orchestration and server start-up are not part of this model. The `onQuizComplete` callback that submit calls last belongs to `App.jsx` and is left out with it. This includes `App.jsx` sending no difficulty, which the route then rejects as a missing field.
- Chatbot.HandleSend and Chatbot.HandleSuggestion: an exchange is completed before the next event. The typing indicator, and events that land while a request is pending, are not modelled. Such an event could see a transcript ending in the user message, where a suggestion does nothing.
