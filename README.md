# Flashcard quiz: a verified model

This project models the flashcard quiz page of the simple-ed web application
(`src/app/flash-card/page.tsx`). The page does two things worth modelling.

- **Reading a deck.** The page reads an uploaded CSV text. It splits the text
  on `\n` and drops every blank or whitespace-only line. The first remaining
  line is a header and is skipped. Each later line is split on `,`, and its
  first two cells, trimmed, become a card's `item` and `response`. A line is
  kept only when both cells are non-empty.
- **Running the quiz.** The page holds one `QuizState` record (`cards`,
  `currentIndex`, `showAnswer`, `userAnswers`, `quizCompleted`) and replaces
  it with a new one on every action. The actions are loading a file, "Show
  Answer", "Correct"/"Incorrect", "Try Again" and "Upload New Cards". At the
  end the page shows the percentage of correct answers, rounded with
  `Math.round`.

Layout:

- `wrappers.dfy`: `Option`, which stands for JavaScript's `undefined` and `NaN`.
- `js_strings.dfy` (module `JsStrings`): the semantics of `String.prototype.trim`
  (ECMAScript WhiteSpace and LineTerminator code points) and of `split` with a
  one-character separator. `Join` is the inverse of `Split`.
- `card_parser.dfy` (module `CardParser`): `Flashcard` and the text-to-cards
  conversion.
- `quiz.dfy` (module `Quiz`): `QuizState`, the transitions as functions over
  the immutable record, the screen each state renders and the buttons it
  offers, event sequences, and the score.

The source builds a fresh record with object spread on every update, so the
state is modelled as an immutable datatype with transition functions.
`Dispatch` applies an action only when the current view shows its control.
That is how the page keeps answering behind "Show Answer", and on a running
quiz with cards. The counting invariant `Consistent` holds in every state
reachable from the initial one. While the quiz runs, exactly one answer is
recorded per card before the current one. Once it is completed, there is
exactly one answer per card.

About the score: 100 does not mean "every answer correct". Rounding half up,
199 correct answers out of 200 also shows 100%, and 1 out of 201 shows 0%.
`ScoreExtremes` proves the exact conditions. `PerfectAndZeroScores` proves the
"all correct"/"none correct" equivalences for up to 199 (resp. 200) answers.
`OneWrongOfManyShowsHundred` exhibits the case above.

## Model

| member | source | states |
|---|---|---|
| `JsStrings.Trim` | src/app/flash-card/page.tsx:32-34 | the result has no whitespace at either end, is no longer than the input, and is empty exactly when the input is all whitespace |
| `JsStrings.TrimIsInfix` | src/app/flash-card/page.tsx:32-34 | the trimmed text is a contiguous part of the input, with only whitespace before and after it |
| `JsStrings.TrimOfPadded` | src/app/flash-card/page.tsx:32-34 | reference definition: a trimmed string padded with whitespace on both sides trims back to itself |
| `JsStrings.TrimIdempotent` | src/app/flash-card/page.tsx:34 | trimming a trimmed cell changes nothing |
| `JsStrings.TrimKeepsOut` | src/app/flash-card/page.tsx:34 | trimming adds no character, so a trimmed cell has no comma |
| `JsStrings.Split` | src/app/flash-card/page.tsx:32-34 | split yields at least one piece, no piece holds the separator, and joining the pieces with it restores the text |
| `JsStrings.SplitJoin` | src/app/flash-card/page.tsx:32-34 | splitting the join of separator-free pieces gives back the same pieces, so a split is unique |
| `JsStrings.SplitAfterHead` | src/app/flash-card/page.tsx:34 | splitting a separator-free cell, a separator and the rest yields that cell, then the pieces of the rest |
| `CardParser.NonBlank` | src/app/flash-card/page.tsx:32 | `line.trim()` is truthy exactly when the line has a character that is not whitespace |
| `CardParser.Filter` | src/app/flash-card/page.tsx:32-36 | `Array.prototype.filter` returns no more elements than it is given, and each one satisfies the predicate |
| `CardParser.FilterMembers` | src/app/flash-card/page.tsx:32-36 | an element is in the filtered list exactly when it is in the input and satisfies the predicate |
| `CardParser.NonBlankLines` | src/app/flash-card/page.tsx:32 | the filter keeps only non-blank lines and never adds any |
| `CardParser.NonBlankLinesMembers` | src/app/flash-card/page.tsx:32 | a line survives the filter exactly when it is a line of the text and is not blank |
| `CardParser.FirstNonBlankLeads` | src/app/flash-card/page.tsx:32 | blank lines before the first non-blank line vanish, so that line heads the filtered list, followed by the filtered rest |
| `CardParser.HeaderIsFirstNonBlankLine` | src/app/flash-card/page.tsx:32-36 | for a text of blank lines, a non-blank line and then more lines, the cards are exactly those of the non-blank lines after that one: the header skipped is the first non-blank line |
| `CardParser.DropHeader` | src/app/flash-card/page.tsx:33 | `lines.slice(1)`: one element fewer (none for no lines), and row k is line k + 1 |
| `CardParser.RowToCard` | src/app/flash-card/page.tsx:34-36 | a row that yields a card yields a well-formed one (non-empty, trimmed item and response, neither holding a comma) |
| `CardParser.CardOfCells` | src/app/flash-card/page.tsx:34-36 | two cells make a card exactly when neither is all whitespace; the card is their trimmed pair and is well-formed |
| `CardParser.RowWithoutComma` | src/app/flash-card/page.tsx:34-36 | a line with no comma has no second cell (`undefined`) and makes no card |
| `CardParser.RowShape` | src/app/flash-card/page.tsx:34-36 | for cells `a` and `b` followed by nothing or by a comma and anything, the card is the pair (trim a, trim b) when both are non-empty, and none otherwise |
| `CardParser.ExtraCellsIgnored` | src/app/flash-card/page.tsx:34 | cells after the second never change the card a row makes |
| `CardParser.CollectCards` | src/app/flash-card/page.tsx:33-36 | at most one card per data row, and every card is well-formed |
| `CardParser.CardsFollowRows` | src/app/flash-card/page.tsx:33-36 | card k comes from the row at the k-th kept position, the positions increase (source order is kept), and a row is kept exactly when it makes a card |
| `CardParser.ParseCards` | src/app/flash-card/page.tsx:31-36 | every card is well-formed, and there are at most (non-blank lines - 1) cards, so a header-only or empty file gives none |
| `Quiz.CountCorrect` | src/app/flash-card/page.tsx:79 | the number correct is at most the number answered, equals it exactly when every answer is true, and is 0 exactly when none is |
| `Quiz.CountCorrectAppend` | src/app/flash-card/page.tsx:79 | the count of correct answers adds up over concatenation |
| `Quiz.RoundedPercent` | src/app/flash-card/page.tsx:80 | `(200c + n) / (2n)` lies in [0, 100] and is within one half of `100c/n`, with halves rounded up as `Math.round` does |
| `Quiz.CalculateScore` | src/app/flash-card/page.tsx:78-81 | no score (NaN) exactly when there are no answers; otherwise a value in [0, 100] that is `100 * correct / total` rounded half up |
| `Quiz.RoundedPercentExtremes` | src/app/flash-card/page.tsx:80 | a rounded percentage is 100 exactly when 200(n - c) <= n, and 0 exactly when 200c < n |
| `Quiz.ScoreExtremes` | src/app/flash-card/page.tsx:78-81 | the score is 100 exactly when 200 * wrong <= total, and 0 exactly when 200 * correct < total |
| `Quiz.PerfectAndZeroScores` | src/app/flash-card/page.tsx:78-81 | all correct scores 100 and none correct scores 0; conversely, below 200 answers 100 means all correct, and up to 200 answers 0 means none correct |
| `Quiz.OneWrongOfManyShowsHundred` | src/app/flash-card/page.tsx:80 | with 200 or more answers, one wrong answer still shows 100% |
| `Quiz.EmptyQuiz` | src/app/flash-card/page.tsx:18-24 | the initial record has no cards and no answers and satisfies the counting invariant |
| `Quiz.LoadCards` | src/app/flash-card/page.tsx:38-44 | loading a file gives the parsed cards at index 0, answer hidden, no answers, not completed, and the invariant holds |
| `Quiz.ShowAnswer` | src/app/flash-card/page.tsx:189 | only `showAnswer` changes, to true; the invariant is preserved while there are cards |
| `Quiz.HandleAnswer` | src/app/flash-card/page.tsx:50-66 | appends exactly the verdict and keeps the cards; before the last card it advances the index and hides the answer, on the last card it keeps the index and completes; the invariant is preserved on a running quiz |
| `Quiz.ResetQuiz` | src/app/flash-card/page.tsx:68-76 | "Try Again" keeps the cards, resets index, answer, answers and completion, and always yields a consistent state |
| `Quiz.Consistent` | src/app/flash-card/page.tsx:18-76 | the counting invariant: never more answers than cards, and the index is in range whenever there are cards |
| `Quiz.ScreenOf` | src/app/flash-card/page.tsx:83-198 | the upload form shows exactly when there are no cards, the results exactly when there are cards and the quiz is completed, and otherwise the card view, with the answer shown as `showAnswer` says |
| `Quiz.Offered` | src/app/flash-card/page.tsx:95-193 | the file input is offered only with no cards; "Show Answer" only on a running quiz with the answer hidden, the verdict buttons only with it shown; "Try Again" and "Upload New Cards" only on a completed quiz |
| `Quiz.Dispatch` | src/app/flash-card/page.tsx:83-193 | an action whose control is not on screen changes nothing, and every offered action preserves the counting invariant |
| `Quiz.Run` | src/app/flash-card/page.tsx:17-76 | any sequence of user actions preserves the counting invariant |
| `Quiz.CurrentCard` | src/app/flash-card/page.tsx:142 | on the card view the index is in range, and the card shown is the first one not yet answered |
| `Quiz.Summary` | src/app/flash-card/page.tsx:113-121 | on the results view the score is defined, lies in [0, 100] and is the rounded percentage of the answers; "X out of Y" shows X = the number of correct answers and Y = the number of answers, which is one per card, with X <= Y |
| `Quiz.ReachableStatesConsistent` | src/app/flash-card/page.tsx:17-76 | every state reachable from the initial one by any sequence of user actions satisfies the counting invariant |
| `Quiz.RunAppend` | src/app/flash-card/page.tsx:17-76 | running two action sequences one after the other is running their concatenation |
| `Quiz.AnsweringRemainingCardsCompletes` | src/app/flash-card/page.tsx:50-66 | from a hidden-answer card, one show-then-verdict per remaining card completes the quiz, with exactly those verdicts appended and the cards untouched |
| `Quiz.UploadAndAnswerEveryCard` | src/app/flash-card/page.tsx:30-81 | uploading a file with cards and judging each card once reaches the results, whose answers are exactly the verdicts and whose score is their rounded percentage |

## Left out

- File input, `FileReader` and the `text/csv` type check (src/app/flash-card/page.tsx:26-31, 46) are browser APIs. The model starts from the text the reader delivers, as the `FileLoaded` event. A non-CSV file raises no event.
- All rendering and styling, including the progress-bar width (src/app/flash-card/page.tsx:83-198). Only which view shows, and which buttons it offers, is modelled (`ScreenOf`, `Offered`).
- CalculateScore: uses exact integer arithmetic for `Math.round(correct / total * 100)`. The source computes the quotient in double precision first, and its rounding error is not modelled. It can change the displayed score: for 23 correct of 40, `0.575 * 100` evaluates to 57.49999999999999, so the page shows 57% where the model gives 58%.
- RowToCard: trims only the first two cells. The source trims every cell, but only the first two are ever read.
- Strings are sequences of Unicode scalar values. JavaScript strings are UTF-16 code units. Every whitespace character `trim` removes is a single code unit, and the separators are ASCII, so nothing the model states depends on this.
- The asynchronous timing of the reader callback and React's batching of state updates are not modelled. Each action is applied to the state the page last rendered.
- src/app/page.tsx, src/app/layout.tsx and apps/psychometric-analysis/src/app/layout.tsx are static markup and metadata.
- src/app/psychometric-analysis/page.tsx only redirects the browser to an external site. The psychometric statistics (Cronbach's alpha, item difficulty and discrimination, standard error of measurement) are not among the source files. That engine is not part of this model.
- next.config.js holds routing and deployment configuration.
