# Green Flag Quiz — a verified model of the quiz core

The Green Flag Quiz asks six multiple-choice questions about a named friend. It adds up
the points of the picked options, turns the total into a percentage and one of three
flags (green, yellow, red), and shows a result screen with a personalised message, a
colour on a red-to-green spectrum, a share text and a downloadable picture.

This project models the logic behind that flow:

- the score calculator: total, percentage, flag, the validation gate, the result
  message pick, the share text and the per-category breakdown;
- the colour helpers: the spectrum, the six-digit hex colour codec of section 5.2 of
  CSS Color Module Level 4, lightening and darkening, the flag palettes and the
  contrasting text colour;
- the static configuration: the question catalogue, the scoring constants and the
  message pools;
- the quiz screen as a state machine: the name gate, the answer upsert, the animated
  next/previous transitions, the keyboard listener and the hand-off to the results;
- the small helpers of the question view and the results screen.

Numbers are exact. Points and channels are `int`. Percentages, blend amounts and
random draws are `real`, read as exact rationals. `Math.round` is "nearest integer,
halves up". The bit shifts of `rgbToHex` go through ECMAScript ToInt32 (section 7.1.6
of ECMA-262), written out in `Int32`. The two draws of `Math.random()` in
`getResultMessage` are parameters `u1` and `u2` in `[0, 1)`. Each user action and each
firing of the 300 ms animation timer is one atomic step of the quiz machine.

Modules, one per file:

| file | module | models |
|---|---|---|
| wrappers.dfy | Wrappers | `Option` |
| text.dfy | Text | `trim`, `indexOf`, `replace` with a string pattern and its `$` substitutions, single-character and whitespace-run replacement, ASCII upper-casing, decimal notation |
| hex.dfy | Hex | `toString(16)`, `parseInt(_, 16)`, fixed-width hex |
| int32.dfy | Int32 | ToInt32 and `<<` |
| questions.dfy | Questions | `src/data/questions.js` |
| score.dfy | ScoreCalculator | `src/utils/scoreCalculator.js` |
| color.dfy | ColorSpectrum | `src/utils/colorSpectrum.js` |
| quiz.dfy | Quiz | the logic of `src/components/Quiz.jsx` |
| question_view.dfy | QuestionView | the logic of `src/components/Question.jsx` |
| results.dfy | Results | the logic of `src/components/Results.jsx` |

`calculateScore` (src/utils/scoreCalculator.js:8-43) adds up the points it is given
without checking them, so for points outside 1..5 the total can lie outside 0..30.
`CalculateScore` therefore states no bound on the total; `ValidatedBounds` proves
6..30 for answers that pass `validateAnswers`.

## Model

| member | source | states |
|---|---|---|
| Questions.ParseFlag | src/utils/scoreCalculator.js:51-52 | a flag key is read back as the flag it names, and every other string is unknown |
| Questions.ParseFlagKey | src/utils/scoreCalculator.js:51-52 | the key of each flag parses back to that flag |
| Questions.ThresholdsOrdered | src/data/questions.js:72-81 | 0 < yellow 13 < green 21 <= 30; the red threshold 12 is yellow - 1; 30 = 6 × 5 |
| Questions.CatalogueWellFormed | src/data/questions.js:2-69 | six questions, ids 1..6 in order, each with four options worth 1..5 whose first is worth 5, each prompt its template with one slot |
| Questions.PickedTotalBounded | src/data/questions.js:71-75 | no way of answering a question list totals more than its best attainable sum |
| Questions.FirstPicksAttainMax | src/data/questions.js:71-75 | when every first option is worth the maximum m, picking the first options reaches the best sum, which is m per question |
| Questions.MaxAttainableIsTotalPossible | src/data/questions.js:2-75 | the best total the catalogue allows is the configured 30, and always picking the first option reaches it |
| Questions.PromptsHaveOnePlaceholder | src/data/questions.js:5-60 | every prompt holds `{friendName}` exactly once, right after its opening text |
| Questions.SlottedOnce | src/data/questions.js:5-60 | a template whose parts hold no opening brace holds the placeholder exactly once |
| Questions.MessagePoolsWellFormed | src/data/questions.js:84-121 | each flag has three titles and three descriptions, each holding the placeholder |
| Questions.MessageBeforesOpen | src/data/questions.js:84-121 | no message template has an opening brace before its placeholder, so the first placeholder found is the slot |
| ScoreCalculator.TotalAppend | src/utils/scoreCalculator.js:19-21 | the sum of points distributes over concatenation, so the fold order is immaterial |
| ScoreCalculator.RoundDiv | src/utils/scoreCalculator.js:24 | the result r is the nearest integer to n/d, halves up: d(2r-1) <= 2n < d(2r+1) |
| ScoreCalculator.RoundDivMonotone | src/utils/scoreCalculator.js:24 | rounding a larger rational never gives a smaller integer |
| ScoreCalculator.FlagFor | src/utils/scoreCalculator.js:27-34 | green iff total >= 21, yellow iff 13 <= total < 21, red iff total < 13 |
| ScoreCalculator.CalculateScore | src/utils/scoreCalculator.js:8-43 | missing or empty answers give exactly total 0, percentage 0, red, the message, and no maximum or count; otherwise the total is the sum of points with missing points as 0, the percentage is round(100·total/30), the flag follows the thresholds, and the result carries maximum 30, count 6 and no message |
| ScoreCalculator.ScoreMonotone | src/utils/scoreCalculator.js:24-34 | a larger total never gives a worse flag or a smaller percentage |
| ScoreCalculator.CalculateScoreExamples | src/utils/__tests__/scoreCalculator.test.js:4-74 | 23 points give 77% with maximum 30 and 6 questions; six 5s give green 30 and 100%; 10 points give red 33%; six 3s give yellow 18 and 60%; no answers give red 0 and 0% |
| ScoreCalculator.ValidateAnswers | src/utils/scoreCalculator.js:99-109 | true iff the input is an array of exactly 6 entries, each present with numeric points in [1, 5] |
| ScoreCalculator.ValidateAnswersExamples | src/utils/__tests__/scoreCalculator.test.js:76-90 | a full set of in-range points passes; the empty array, one answer and one answer worth 6 fail, as does a missing array |
| ScoreCalculator.ValidatedBounds | src/utils/scoreCalculator.js:99-109 | validated answers score 6..30 points, that is 20..100% |
| ScoreCalculator.PoolIndex | src/utils/scoreCalculator.js:60-61 | `Math.floor(u · n)` for a draw in [0, 1) is an index of the pool |
| ScoreCalculator.GetResultMessage | src/utils/scoreCalculator.js:50-67 | an unknown key gives the fixed fallback pair; a known key gives a title from its flag's titles and a description from its descriptions |
| ScoreCalculator.GetResultMessageCovers | src/utils/scoreCalculator.js:59-61 | the title depends only on the first draw and the description only on the second, and every pair of pool entries is drawn by some pair of draws |
| ScoreCalculator.GenerateShareText | src/utils/scoreCalculator.js:75-92 | the text is the lead, then the name, which defaults to "My Friend" only when absent, then the rest of the template and nothing else; it contains the flag's label, its emoji and the percentage |
| ScoreCalculator.ShareRestContains | src/utils/scoreCalculator.js:89-91 | the template after the name holds the flag's label, its emoji and the percentage |
| ScoreCalculator.ShareTextDeterminesFlag | src/utils/scoreCalculator.js:83-89 | results with different flags never have the same share text |
| ScoreCalculator.ShareTextDeterminesName | src/utils/scoreCalculator.js:89-91 | two share texts of one result are equal only for the same name |
| ScoreCalculator.AddToEffect | src/utils/scoreCalculator.js:121-130 | adding an answer to a key keeps the keys distinct, adds the key if new, adds the points and one question to that key only, and counts one more answer overall |
| ScoreCalculator.TalliesCorrect | src/utils/scoreCalculator.js:119-131 | grouping keeps the keys distinct; each key's score and count are those of exactly the answers grouped under it, with `question_<i+1>` for an answer without category; the keys are exactly those some answer falls under; the counts sum to the number of answers |
| ScoreCalculator.GetScoreBreakdown | src/utils/scoreCalculator.js:116-140 | one entry per key some answer falls under; each entry has the score and count of its answers, maximum 5 and percentage round(score/5·100) = 20·score; the counts sum to the number of answers |
| Int32.ToInt32 | src/utils/colorSpectrum.js:58 | the result lies in the signed 32-bit range, equals its argument there, and is congruent to it modulo 2^32 |
| Int32.ShiftLeft | src/utils/colorSpectrum.js:58 | `x << n` lies in the signed 32-bit range, and a shift by a multiple of 32 is ToInt32 of x |
| Int32.ShiftLeftWraps | src/utils/colorSpectrum.js:58 | `x << n` is congruent to x · 2^(n mod 32) modulo 2^32 |
| Int32.ShiftBytes | src/utils/colorSpectrum.js:58 | `1 << 24`, `r << 16` and `g << 8` on bytes do not wrap |
| Hex.ToHex | src/utils/colorSpectrum.js:22 | `toString(16)` of a natural number is lower-case digits with no leading zero |
| Hex.ToHexRoundTrip | src/utils/colorSpectrum.js:22 | the digits `toString(16)` writes read back as the number |
| Hex.Pow16Add | src/utils/colorSpectrum.js:22 | powers of 16 multiply by adding exponents, the place values of hex notation |
| Hex.FixedRoundTrip | src/utils/colorSpectrum.js:44-46 | k fixed-width digits of a number below 16^k read back in base 16 as that number |
| ColorSpectrum.Round | src/utils/colorSpectrum.js:15-18 | `Math.round` gives the integer within half a unit, halves up |
| ColorSpectrum.Clamp | src/utils/colorSpectrum.js:9 | the result lies in [0, 100], is p inside it, 0 below it and 100 above it |
| ColorSpectrum.SpectrumChannels | src/utils/colorSpectrum.js:9-19 | the channels lie in 0..255 with blue 0; red is 255 below 50%, green is 255 from 50% |
| ColorSpectrum.Perc2Color | src/utils/colorSpectrum.js:7-23 | the colour is `#` and six lower-case hex digits, and reads back as the spectrum channels |
| ColorSpectrum.HexOfChannels | src/utils/colorSpectrum.js:21-22 | packing the channels into one number and padding its hex form to six digits gives the canonical colour |
| ColorSpectrum.PaddedSix | src/utils/colorSpectrum.js:22 | six zeros in front of `toString(16)`, cut to the last six, give the six-digit form |
| ColorSpectrum.Perc2ColorClamps | src/utils/colorSpectrum.js:9 | every p <= 0 gives the colour of 0, every p >= 100 the colour of 100 |
| ColorSpectrum.Perc2ColorEndpoints | src/utils/__tests__/colorSpectrum.test.js:4-15 | 0, 50 and 100 give `#ff0000`, `#ffff00` and `#00ff00` |
| ColorSpectrum.SpectrumMonotone | src/utils/colorSpectrum.js:13-19 | as the percentage grows, red never rises and green never falls |
| ColorSpectrum.GetColorForScore | src/utils/colorSpectrum.js:31-34 | for a non-zero maximum, the colour is the canonical hex form of the spectrum channels of score/max·100, and reads back as those channels |
| ColorSpectrum.GetColorForScoreExamples | src/utils/__tests__/colorSpectrum.test.js:22-31 | out of 30: 0 is red, 15 yellow and 30 green |
| ColorSpectrum.HexToRgb | src/utils/colorSpectrum.js:41-48 | accepts exactly an optional `#` and six hex digits of either case, decoding each pair in base 16 into 0..255; null otherwise |
| ColorSpectrum.DecodeEncode | src/utils/colorSpectrum.js:41-48 | the canonical form of a colour reads back as that colour |
| ColorSpectrum.EncodeDecode | src/utils/colorSpectrum.js:41-48 | an accepted colour, read and written canonically, is `#` and its own digits in lower case |
| ColorSpectrum.RgbToHex | src/utils/colorSpectrum.js:57-59 | starts with `#`; for channels in 0..255 it is `#` and two lower-case digits per channel |
| ColorSpectrum.CanonicalValue | src/utils/colorSpectrum.js:58 | for bytes, the shifted sum written in hex is `1` and the six channel digits |
| ColorSpectrum.RgbRoundTrip | src/utils/colorSpectrum.js:57-59 | for channels in 0..255, reading back the written colour gives the channels |
| ColorSpectrum.LightenChannel | src/utils/colorSpectrum.js:84-86 | the channel is v + (255 − v)·amount rounded halves up, capped at 255; it never exceeds 255 and, for a byte and an amount in [0, 1], never falls |
| ColorSpectrum.DarkenChannel | src/utils/colorSpectrum.js:101-103 | the channel is v·(1 − amount) rounded halves up, floored at 0; it is never negative and, for a byte and an amount in [0, 1], never rises |
| ColorSpectrum.LightenMonotone | src/utils/colorSpectrum.js:84-86 | a larger amount lightens at least as much |
| ColorSpectrum.DarkenMonotone | src/utils/colorSpectrum.js:101-103 | a larger amount darkens at least as much |
| ColorSpectrum.LightenRgb | src/utils/colorSpectrum.js:84-86 | for channels in 0..255 and an amount in [0, 1], every lightened channel lies in 0..255 and none falls |
| ColorSpectrum.DarkenRgb | src/utils/colorSpectrum.js:101-103 | for channels in 0..255 and an amount in [0, 1], every darkened channel lies in 0..255 and none rises |
| ColorSpectrum.LightenColor | src/utils/colorSpectrum.js:80-89 | an unreadable colour is returned unchanged; for an amount in [0, 1] the result is the canonical hex form of the colour lightened channel by channel, reads back as it, and no channel falls or exceeds 255 |
| ColorSpectrum.DarkenColor | src/utils/colorSpectrum.js:97-106 | an unreadable colour is returned unchanged; for an amount in [0, 1] the result is the canonical hex form of the colour darkened channel by channel, reads back as it, and no channel rises or goes below 0 |
| ColorSpectrum.GetColorWithAlpha | src/utils/colorSpectrum.js:67-72 | an unreadable colour is returned unchanged; a readable one gives `rgba(` … alpha `)` |
| ColorSpectrum.AlphaOfEncoded | src/utils/colorSpectrum.js:67-72 | a canonical colour is written as its three channels in decimal, then the alpha |
| ColorSpectrum.BaseColorsParse | src/utils/colorSpectrum.js:114-118 | every base colour is a readable hex colour |
| ColorSpectrum.GetFlagColors | src/utils/colorSpectrum.js:113-130 | the primary is the flag's base colour, `#EF4444` for an unknown key; light and lighter are the canonical hex of it lightened by 0.3 and 0.6, dark and darker of it darkened by 0.2 and 0.4; all five are readable and ordered channel by channel: darker, dark, primary, light, lighter |
| ColorSpectrum.PaletteOrdered | src/utils/colorSpectrum.js:122-127 | the shades of a readable base colour are readable and ordered channel by channel around it |
| ColorSpectrum.GetTextColorForBackground | src/utils/colorSpectrum.js:148-156 | an unreadable colour gives `#000000`; otherwise black iff 299r + 587g + 114b > 127500, white otherwise |
| ColorSpectrum.TextColorExtremes | src/utils/colorSpectrum.js:148-156 | white gets black text and black gets white text |
| Text.Trim | src/components/Quiz.jsx:37 | the trimmed text is a piece of the text with only whitespace before and after it, and neither starts nor ends with whitespace |
| Text.TrimEmptyIffBlank | src/components/Quiz.jsx:37 | the trimmed name is empty exactly when the name is all whitespace |
| Text.IndexOf | src/components/Question.jsx:10 | the first occurrence of the pattern, or none exactly when it does not occur |
| Text.Substitution | src/components/Question.jsx:10 | a replacement without `$` is inserted as it is; `$&` inserts the matched text, `$$` one dollar sign, `` $` `` the text before the match and `$'` the text after it |
| Text.SubstitutionAppend | src/components/Question.jsx:10 | a replacement split after a character other than `$` expands to the expansions of its two parts |
| Text.SubstitutionOfInnerPattern | src/components/Question.jsx:10 | a `$&` inside a longer replacement, not preceded by `$`, is expanded in place to the matched text |
| Text.ReplaceFirst | src/components/Question.jsx:10 | `replace` with a string pattern leaves a text without the pattern unchanged, and otherwise replaces the first occurrence by the replacement with its `$` patterns expanded; the replacement `$&` leaves the text unchanged |
| Text.ReplaceFirstLiteral | src/components/Question.jsx:10 | the text is unchanged without the pattern, and otherwise has its first occurrence replaced by the replacement text itself |
| Text.ReplaceFirstWithoutDollar | src/components/Question.jsx:10 | for a replacement without `$`, `replace` substitutes it literally |
| Text.DollarAmpersandKeepsPattern | src/components/Question.jsx:10 | the replacement `$&` puts the matched pattern back, so the text is unchanged |
| Text.FillSlot | src/components/Question.jsx:10 | filling the only slot of a template gives its text around the replacement |
| Text.ReplaceEvery | src/components/Question.jsx:94 | every occurrence of the character is replaced and nothing else changes |
| Text.ReplaceEveryIdempotent | src/components/Question.jsx:94 | replacing twice is replacing once |
| Text.UpperAscii | src/components/Question.jsx:94 | ASCII lower-case letters become upper case and nothing else changes |
| Text.ReplaceWhitespaceRuns | src/components/Results.jsx:113 | the result holds no whitespace and is no longer than the input |
| Text.ReplaceWhitespaceRunsIdentity | src/components/Results.jsx:113 | a text without whitespace is unchanged |
| Text.ReplaceWhitespaceRunsJoin | src/components/Results.jsx:113 | one maximal whitespace run between two pieces becomes exactly one separator |
| Text.NatToDecimal | src/utils/scoreCalculator.js:89 | decimal digits, with a leading zero only for 0 |
| Text.IntToDecimal | src/utils/scoreCalculator.js:89 | the decimal digits of n for n ≥ 0, and `-` followed by the digits of −n for n < 0 |
| Text.DecimalRoundTrip | src/utils/scoreCalculator.js:89 | the decimal notation reads back as the number |
| Quiz.CatalogueReady | src/components/Quiz.jsx:31-32 | the catalogue is a list the quiz can walk, with the configured six questions |
| Quiz.InitInv | src/components/Quiz.jsx:25-29 | the mounting state satisfies the invariant |
| Quiz.AnswerFor | src/components/Quiz.jsx:46-51 | for an option of the question, the answer records that pick with its points and the question's id and category; it passes the per-answer validation check exactly when the option is worth 1..5 |
| Quiz.FindIndex | src/components/Quiz.jsx:55-57 | the first position with the question id, or none exactly when there is none |
| Quiz.Upsert | src/components/Quiz.jsx:54-63 | the first answer to the question is replaced, or the answer is appended when there is none; every other position keeps its answer |
| Quiz.UpsertEffect | src/components/Quiz.jsx:54-63 | afterwards exactly one answer is for the question and it is the new one; ids stay distinct; the list grows by one iff the question had no answer and otherwise keeps its length |
| Quiz.CurrentSelectedAnswer | src/components/Quiz.jsx:69-71 | some answer exactly when one is for the current question, and then it is for that question |
| Quiz.SubmitName | src/components/Quiz.jsx:36-40 | the name screen is left iff the name read is not blank; nothing else changes |
| Quiz.SelectAnswer | src/components/Quiz.jsx:43-66 | ignored while animating; otherwise only the answers change, the current question's selected answer is then the new one, and answers to other questions keep their places and values |
| Quiz.Next | src/components/Quiz.jsx:74-94 | ignored while animating; otherwise the animation starts with the forward callback holding the index, the answers and the name of that render; nothing else changes |
| Quiz.Previous | src/components/Quiz.jsx:97-106 | ignored while animating or on the first question; otherwise the animation starts with the backward callback; nothing else changes |
| Quiz.Fire | src/components/Quiz.jsx:79-105 | the timer releases the lock and changes at most the index and the hand-off; only a forward callback from the last question hands off, and the index moves only when a callback is pending |
| Quiz.Handle | src/components/Quiz.jsx:109-127 | no handler returns to the name screen or changes the listener, and the name changes only on the name screen |
| Quiz.Refresh | src/components/Quiz.jsx:109-127 | the listener is re-installed with the current name when the name-screen flag, the index, the answers or the animation flag changed, and otherwise the state is left as it is; nothing else changes |
| Quiz.StepAsWritten | src/components/Quiz.jsx:109-127 | after the hand-off nothing changes; no step returns to the name screen, and the name changes only on the name screen |
| Quiz.Step | src/components/Quiz.jsx:109-127 | the same with the listener seeing the current name |
| Quiz.StepInv | src/components/Quiz.jsx:43-106 | every step keeps the invariant: the index is a question, the answers are one per question for a prefix reaching the current one, a pending timer holds the current values, a hand-off holds all answers |
| Quiz.Run | src/components/Quiz.jsx:23-127 | a run of events from a state satisfying the invariant ends in one satisfying it |
| Quiz.RunAsWritten | src/components/Quiz.jsx:23-127 | the same for the quiz as written |
| Quiz.NameGate | src/components/Quiz.jsx:36-40 | the start button leaves the name screen exactly for a name that is not blank |
| Quiz.OnlySubmitLeavesNameScreen | src/components/Quiz.jsx:111-115 | only the start button or Enter leaves the name screen, and only on a name that is not blank |
| Quiz.TypeName | src/components/Quiz.jsx:148-150 | typing on the name screen changes only the name |
| Quiz.AnimationLock | src/components/Quiz.jsx:43-106 | while the animation runs, picking, Next and Previous, by button or key, change nothing |
| Quiz.PreviousAtFirst | src/components/Quiz.jsx:97-98 | Previous on the first question changes nothing |
| Quiz.NextNeedsAnswer | src/components/Quiz.jsx:118-119 | Next, by button or key, changes nothing while the current question is unanswered |
| Quiz.SelectRecordsAnswer | src/components/Quiz.jsx:43-66 | picking option j leaves exactly one answer to the current question, for that option with its points and the question's category; other answers keep their places and values; the list grows iff the question was unanswered |
| Quiz.FireMoves | src/components/Quiz.jsx:79-105 | the timer releases the lock; forward on the last question hands off the answers, the question count and the name; forward elsewhere moves one on; backward moves one back |
| Quiz.NextThenFire | src/components/Quiz.jsx:74-94 | Next followed by the timer hands off the captured answers, question count and name on the last question, and elsewhere moves one question on; nothing else changes |
| Quiz.PreviousThenFire | src/components/Quiz.jsx:97-106 | Previous followed by the timer moves one question back, and changes nothing on the first question |
| Quiz.Entries | src/components/Results.jsx:39 | the answers are passed to the calculator one entry each, in order, and pass validation exactly when there are six, each worth 1..5 |
| Quiz.HandoffValid | src/components/Quiz.jsx:80-88 | a hand-off carries one answer per question in order, each a pick among its options, and a name that is not blank; with six questions it passes validation |
| Quiz.CatalogueHandoff | src/components/Quiz.jsx:80-88 | on the catalogue, every run that reaches the results, with the listener seeing the current name and as written, hands over answers that pass validation and score out of 30 |
| Quiz.EnterIgnoredAsWritten | src/components/Quiz.jsx:109-127 | as written, Enter on the name screen changes nothing in any reachable state |
| Quiz.EnterSubmits | src/components/Quiz.jsx:111-114 | with the listener seeing the current name, Enter acts as the start button |
| Quiz.EnterCounterexample | src/components/Quiz.jsx:109-127 | typing "Sam" and pressing Enter stays on the name screen as written, and starts the quiz when the listener sees the current name |
| QuestionView.NameOrDefault | src/components/Question.jsx:10 | the name when present and not empty, otherwise "Your Friend"; never empty |
| QuestionView.DisplayQuestionAsWritten | src/components/Question.jsx:10 | as written, the prompt is unchanged without a placeholder, and otherwise has its first placeholder replaced by the name with its `$` patterns expanded; the name `$&` leaves the prompt unchanged |
| QuestionView.DisplayQuestion | src/components/Question.jsx:10 | the prompt with its first placeholder replaced by the name taken literally, or unchanged without a placeholder |
| QuestionView.DisplayAgreesWithoutDollar | src/components/Question.jsx:10 | for a name without `$`, the displayed prompt as written is the literal fill |
| QuestionView.FillTemplate | src/components/Question.jsx:10 | a one-slot template is shown as its text around the name, with no placeholder unless the name holds one |
| QuestionView.DisplayCatalogueQuestion | src/components/Question.jsx:10 | every catalogue prompt shows its text around the name, and no placeholder when the name holds none |
| QuestionView.DollarNameKeepsPlaceholder | src/components/Question.jsx:10 | as written, the name `$&` shows every catalogue prompt unchanged, placeholder included |
| QuestionView.IsSelected | src/components/Question.jsx:31 | an option is marked only when there is an answer with a selected option of the same text, and the selected option itself is always marked |
| QuestionView.ClickMarksOption | src/components/Question.jsx:30-41 | after clicking option j, the marked options are exactly those whose text is the clicked option's text |
| QuestionView.UnansweredMarksNothing | src/components/Question.jsx:31 | with no answer to the question, no option is marked |
| QuestionView.CategoryLabel | src/components/Question.jsx:94 | an empty category shows "FRIENDSHIP"; otherwise `_` becomes a space, lower-case letters become upper case and everything else stays |
| QuestionView.CategoryLabelOfShown | src/components/Question.jsx:94 | a category already upper case and without `_` is its own label |
| QuestionView.CategoryLabelIdempotent | src/components/Question.jsx:94 | the label of a label is itself |
| Results.FlagEmojiFor | src/components/Results.jsx:156-163 | a known key gives its flag's emoji; `❓` exactly for an unknown key |
| Results.GradientFor | src/components/Results.jsx:165-172 | a known key gives its flag's gradient, an unknown key the red one |
| Results.FlagLooksDistinct | src/components/Results.jsx:156-172 | distinct flags have distinct gradients and distinct emojis |
| Results.KeyLooks | src/components/Results.jsx:156-172 | a known key looks like its flag; an unknown key gets the red gradient but not the red emoji |
| Results.Personalise | src/components/Results.jsx:46-49 | title and description each have their first placeholder replaced by the name taken literally, or by "Your Friend" when the name is absent or empty, and are unchanged without one |
| Results.PersonaliseAsWritten | src/components/Results.jsx:46-49 | as written, title and description are each unchanged without a placeholder and otherwise have the first replaced by the name with its `$` patterns expanded; the name `$&` leaves the message unchanged |
| Results.PersonaliseAgreesWithoutDollar | src/components/Results.jsx:46-49 | for a name without `$`, the personalisation as written is the literal fill |
| Results.DollarNameKeepsMessagePlaceholder | src/components/Results.jsx:46-49 | as written, the name `$&` leaves every message of every flag unchanged, placeholder included |
| Results.PersonaliseDrawn | src/components/Results.jsx:40-49 | a drawn and personalised message is a title template and a description template of the flag, each with the name in its slot |
| Results.ShareTextForPlatform | src/components/Results.jsx:82 | the posted text has the same length, every line break becomes a space and every other character is unchanged, so none is left |
| Results.FlattenKeepsMatch | src/components/Results.jsx:82 | a piece without line breaks stays where it was after flattening |
| Results.PostedShareText | src/components/Results.jsx:81-82 | for a name without line breaks, the posted text has none and still opens with the lead and the name |
| Results.DownloadFileName | src/components/Results.jsx:113 | the file name is the name with each whitespace run replaced by one dash, then `-quiz-results.png`; it holds no whitespace |
| Results.DownloadFileNameOfWord | src/components/Results.jsx:113 | a name without whitespace is used as it is |
| Results.DownloadFileNameJoins | src/components/Results.jsx:113 | one whitespace run between two words becomes one dash |
| Results.Show | src/components/Results.jsx:39-43 | the screen shows the result and the message, the spectrum colour of the score out of 30, the palette, emoji and gradient of the flag, and the share text of the result and the name |
| Results.Render | src/components/Results.jsx:25-49 | a redirect exactly when the answers are missing or empty; otherwise the calculator's result with its colours, palette and share text, and the drawn message of its flag personalised with the name |
| Results.RenderAsWritten | src/components/Results.jsx:25-49 | the same, with the message personalised as written |
| Results.RenderAgreesWithoutDollar | src/components/Results.jsx:46-49 | the screen as written differs from the intended one at most in the message, and not at all for a name without `$` |
| Results.RenderValid | src/components/Results.jsx:38-49 | six valid answers and a name give a shown screen with a known emoji, 6..30 points, 20..100%, and a title template of the flag with the name in its slot |
| Results.HandoffOpensResults | src/components/Results.jsx:25-49 | a reachable state that has handed off on the catalogue carries valid answers and a name, and the screen shows them, personalised literally and as written |
| Results.HandoffRenders | src/components/Results.jsx:25-43 | every run of the quiz with the listener seeing the current name that reaches the results hands over valid answers and a name, and the screen shows them rather than redirecting, personalised literally and as written |
| Results.HandoffRendersAsWritten | src/components/Results.jsx:25-43 | the same for every run of the quiz as written |

## Left out

- `Object.prototype` keys such as `"constructor"` as flag keys: lookups by key are modelled as lookups in the three own keys only.
- NaN, Infinity and IEEE-754 rounding: numbers are exact integers and rationals, so rounding ties (for example `5.1 * 5`) fall as exact arithmetic says.
- Unicode whitespace and case: `\s`, `trim` and `toUpperCase` are restricted to ASCII.
- The number formatting of `alpha`, the `alpha` closure in `getFlagColors`, and `createGradient`.
- React rendering, framer-motion, the PatternFly wrappers and routing; the progress bar and the question counter text.
- Browser I/O in the results screen: html2canvas, fetch/Blob/File, Web Share, the clipboard, `window.open`, `alert` and URL building.
- The 300 ms timers: each firing is one atomic step, and a pending timer blocks new transitions as the lock does.
- `src/components/InstagramAuth.jsx`, `src/components/HomePage.jsx`, `src/App.jsx` and `jest.config.js` are not part of this model.
- Quiz.Handle: a click on an option index outside the question's options is a no-op; in the page such a click cannot happen.
- Results.DownloadFileName: takes the name as a string; the page calls `replace` on an absent name, which throws, and that error is not modelled.
- ScoreCalculator.GetScoreBreakdown: requires every answer to carry points (`HasPoints`); the source then adds `undefined` and yields NaN. Answers are records, so a null entry's TypeError is not modelled either.
- ScoreCalculator.GetScoreBreakdown: a category named like an `Object.prototype` property, such as `"constructor"` or `"__proto__"`, finds an inherited value in the source, so its tally is never created and the category is missing from the result; the model treats every category as an ordinary key.
- Points of other types: answers carry integer points or none, so a string (which `+` concatenates), `true` (which adds 1) and fractional points are not modelled.
- ScoreCalculator.GetScoreBreakdown: the breakdown is a list of distinct keys in insertion order; the JavaScript rule that integer-like keys enumerate first is not modelled.
- ScoreCalculator.CalculateScore: states the percentage by its rounding bounds and the total as the sum, rather than as a closed value.
- ColorSpectrum.GetColorWithAlpha: the alpha is a ready-made string, and the contract states only the `rgba(` prefix and the alpha suffix; `AlphaOfEncoded` gives the exact text for canonical colours.
- Results.Show: states the spectrum colour as `GetColorForScore` of the score out of the maximum; what that colour means is `GetColorForScore`'s own contract.

## Findings

| source | as written | input that shows it | evidently intended | confidence | as-written member | corrected member |
|---|---|---|---|---|---|---|
| src/components/Quiz.jsx:109-127 | the keydown effect's dependencies leave out `friendName`, so the listener keeps the empty name it saw on mounting, and Enter on the name screen calls `handleFriendNameSubmit` with `""` | type "Sam", then press Enter: the name screen stays | Enter submits the typed name, as the start button does | not executed | Quiz.EnterIgnoredAsWritten, Quiz.EnterCounterexample | Quiz.EnterSubmits (with Quiz.Step, the listener seeing the current name) |
| src/components/Question.jsx:10 | `replace` with the name as a replacement string expands `$&`, `$$`, `` $` `` and `$'` in the name | the friend name `$&`: the prompt and the result messages show `{friendName}` | the name is inserted literally | not executed | QuestionView.DollarNameKeepsPlaceholder, Results.DollarNameKeepsMessagePlaceholder | QuestionView.DisplayCatalogueQuestion, Results.PersonaliseDrawn |
