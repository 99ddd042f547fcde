/**
 * The flashcard page's quiz: the one `QuizState` record the page holds, the
 * transitions its handlers perform (each builds a whole new record), the
 * screens and buttons that decide which transition the user can trigger,
 * and the score shown at the end.
 */
module Quiz {
  import opened Wrappers
  import opened CardParser

  datatype QuizState = QuizState(
    cards: seq<Flashcard>,
    currentIndex: nat,
    showAnswer: bool,
    userAnswers: seq<bool>,
    quizCompleted: bool)

  // ----- Score -----

  /** `userAnswers.filter(answer => answer).length`. */
  function CountCorrect(answers: seq<bool>): (c: nat)
    ensures c <= |answers|
    ensures c == |answers| <==> forall k :: 0 <= k < |answers| ==> answers[k]
    ensures c == 0 <==> forall k :: 0 <= k < |answers| ==> !answers[k]
  {
    if answers == [] then 0
    else (if answers[0] then 1 else 0) + CountCorrect(answers[1..])
  }

  lemma {:induction false} CountCorrectAppend(a: seq<bool>, b: seq<bool>)
    ensures CountCorrect(a + b) == CountCorrect(a) + CountCorrect(b)
  {
    if a != [] {
      assert (a + b)[1..] == a[1..] + b;
      CountCorrectAppend(a[1..], b);
    } else {
      assert a + b == b;
    }
  }

  /**
   * `Math.round(correct / total * 100)`: the percentage of correct answers
   * rounded to the nearest integer, halves upwards. With no answers the
   * source computes `0 / 0`, which is `NaN`; that is `None` here.
   */
  function CalculateScore(answers: seq<bool>): (score: Option<int>)
    ensures score.None? <==> answers == []
    ensures score.Some? ==> 0 <= score.value <= 100
    ensures score.Some? ==> var n, c := |answers|, CountCorrect(answers);
                            -n <= 2 * (100 * c - score.value * n) < n
  {
    if answers == [] then None
    else
      var n, c := |answers|, CountCorrect(answers);
      RoundedPercent(c, n);
      Some((200 * c + n) / (2 * n))
  }

  /** Half-up rounding of `100 * c / n` by integer division. */
  lemma RoundedPercent(c: int, n: int)
    requires 0 <= c <= n && 0 < n
    ensures var r := (200 * c + n) / (2 * n);
            0 <= r <= 100 && -n <= 2 * (100 * c - r * n) < n
  {
    var r := (200 * c + n) / (2 * n);
    var m := (200 * c + n) % (2 * n);
    assert 200 * c + n == r * (2 * n) + m && 0 <= m < 2 * n;
    assert 2 * (100 * c - r * n) == m - n;
    assert r * (2 * n) < 101 * (2 * n);
    CancelFactor(r, 101, 2 * n);
  }

  /** Dividing both sides of a strict inequality by a positive factor. */
  lemma CancelFactor(x: int, y: int, k: int)
    requires k > 0 && x * k < y * k
    ensures x < y
  {
    assert (y - x) * k == y * k - x * k;
  }

  /** For the rounded percentage `r` of `c` out of `n`: when it is 100, and when it is 0. */
  lemma RoundedPercentExtremes(c: int, n: int, r: int)
    requires 0 <= c <= n && 0 < n && 0 <= r <= 100
    requires -n <= 2 * (100 * c - r * n) < n
    ensures r == 100 <==> 200 * (n - c) <= n
    ensures r == 0 <==> 200 * c < n
  {
    if 200 * (n - c) <= n {
      assert 99 * n < r * n;
      CancelFactor(99, r, n);
    }
    if 200 * c < n {
      assert r * n < 1 * n;
      CancelFactor(r, 1, n);
    }
  }

  /** The exact conditions for the two extreme scores. */
  lemma ScoreExtremes(answers: seq<bool>)
    requires answers != []
    ensures var n, c := |answers|, CountCorrect(answers);
            && (CalculateScore(answers) == Some(100) <==> 200 * (n - c) <= n)
            && (CalculateScore(answers) == Some(0) <==> 200 * c < n)
  {
    RoundedPercentExtremes(CountCorrect(answers), |answers|, CalculateScore(answers).value);
  }

  /**
   * All answers correct scores 100 and none correct scores 0; conversely,
   * 100 means all correct while there are fewer than 200 answers, and 0
   * means none correct while there are at most 200.
   */
  lemma PerfectAndZeroScores(answers: seq<bool>)
    requires answers != []
    ensures (forall k :: 0 <= k < |answers| ==> answers[k]) ==> CalculateScore(answers) == Some(100)
    ensures (forall k :: 0 <= k < |answers| ==> !answers[k]) ==> CalculateScore(answers) == Some(0)
    ensures |answers| < 200 ==>
              (CalculateScore(answers) == Some(100) <==> forall k :: 0 <= k < |answers| ==> answers[k])
    ensures |answers| <= 200 ==>
              (CalculateScore(answers) == Some(0) <==> forall k :: 0 <= k < |answers| ==> !answers[k])
  {
    ScoreExtremes(answers);
  }

  /** Rounding lets a wrong answer go unseen: 199 right out of 200 (or more) shows 100. */
  lemma OneWrongOfManyShowsHundred(n: nat)
    requires n >= 200
    ensures CalculateScore(seq(n - 1, _ => true) + [false]) == Some(100)
  {
    var rights := seq(n - 1, _ => true);
    CountCorrectAppend(rights, [false]);
    assert CountCorrect([false]) == 0;
    ScoreExtremes(rights + [false]);
  }

  // ----- Transitions -----

  /** The record the page starts with, which "Upload New Cards" restores: no cards, so the upload form shows. */
  function EmptyQuiz(): (q: QuizState)
    ensures q.cards == [] && q.userAnswers == [] && Consistent(q)
  {
    QuizState([], 0, false, [], false)
  }

  /** The record set once a CSV file has been read: a fresh quiz over its cards. */
  function LoadCards(text: string): (q: QuizState)
    ensures q.cards == ParseCards(text)
    ensures q.currentIndex == 0 && !q.showAnswer && q.userAnswers == [] && !q.quizCompleted
    ensures Consistent(q)
  {
    QuizState(ParseCards(text), 0, false, [], false)
  }

  /** "Show Answer": only `showAnswer` changes, to true. */
  function ShowAnswer(q: QuizState): (r: QuizState)
    ensures r.showAnswer && r == q.(showAnswer := true)
    ensures Consistent(q) && q.cards != [] ==> Consistent(r)
  {
    q.(showAnswer := true)
  }

  /**
   * "Correct" / "Incorrect": the answer is recorded, and the quiz moves to
   * the next card, or is completed when this was the last one.
   */
  function HandleAnswer(q: QuizState, correct: bool): (r: QuizState)
    ensures r.cards == q.cards && r.userAnswers == q.userAnswers + [correct]
    ensures q.currentIndex < |q.cards| - 1 ==>
              r.currentIndex == q.currentIndex + 1 && !r.showAnswer && r.quizCompleted == q.quizCompleted
    ensures q.currentIndex >= |q.cards| - 1 ==>
              r.currentIndex == q.currentIndex && r.showAnswer == q.showAnswer && r.quizCompleted
    ensures Consistent(q) && q.cards != [] && !q.quizCompleted ==> Consistent(r)
  {
    var newAnswers := q.userAnswers + [correct];
    if q.currentIndex < |q.cards| - 1 then
      q.(currentIndex := q.currentIndex + 1, showAnswer := false, userAnswers := newAnswers)
    else
      q.(userAnswers := newAnswers, quizCompleted := true)
  }

  /** "Try Again": the same cards from the start. */
  function ResetQuiz(q: QuizState): (r: QuizState)
    ensures r.cards == q.cards
    ensures r.currentIndex == 0 && !r.showAnswer && r.userAnswers == [] && !r.quizCompleted
    ensures Consistent(r)
  {
    q.(currentIndex := 0, showAnswer := false, userAnswers := [], quizCompleted := false)
  }

  // ----- What the page shows, and which buttons it offers -----

  /**
   * The counting invariant: with no cards the quiz is the empty one; while
   * it runs, one answer has been recorded per card before the current one;
   * once completed, one answer per card, the index resting on the last card.
   */
  predicate Consistent(q: QuizState)
    ensures Consistent(q) ==> |q.userAnswers| <= |q.cards|
    ensures Consistent(q) && q.cards != [] ==> q.currentIndex < |q.cards|
  {
    if q.cards == [] then q == QuizState([], 0, false, [], false)
    else if q.quizCompleted then |q.userAnswers| == |q.cards| && q.currentIndex == |q.cards| - 1
    else |q.userAnswers| == q.currentIndex < |q.cards|
  }

  datatype Screen = UploadForm | CardView(answerShown: bool) | Results

  /** Which of the page's three views renders the state. */
  function ScreenOf(q: QuizState): (s: Screen)
    ensures s == UploadForm <==> q.cards == []
    ensures s == Results <==> q.cards != [] && q.quizCompleted
    ensures s.CardView? ==> s.answerShown == q.showAnswer
  {
    if |q.cards| == 0 then UploadForm
    else if q.quizCompleted then Results
    else CardView(q.showAnswer)
  }

  /** The user's actions; `FileLoaded` is the reader's callback with the file's text. */
  datatype Event = FileLoaded(text: string) | ShowAnswerClicked | AnswerClicked(correct: bool)
                 | TryAgainClicked | UploadNewClicked

  /** Whether the current view offers the control that raises the event. */
  predicate Offered(q: QuizState, e: Event)
    ensures Offered(q, e) ==> (e.FileLoaded? <==> q.cards == [])
    ensures Offered(q, e) && (e.ShowAnswerClicked? || e.AnswerClicked?)
            ==> !q.quizCompleted && (e.AnswerClicked? <==> q.showAnswer)
    ensures Offered(q, e) && (e.TryAgainClicked? || e.UploadNewClicked?) ==> q.quizCompleted
  {
    match e
    case FileLoaded(_) => ScreenOf(q) == UploadForm
    case ShowAnswerClicked => ScreenOf(q) == CardView(false)
    case AnswerClicked(_) => ScreenOf(q) == CardView(true)
    case TryAgainClicked => ScreenOf(q) == Results
    case UploadNewClicked => ScreenOf(q) == Results
  }

  /** One user action: the handler runs when its control is on screen; otherwise nothing happens. */
  function Dispatch(q: QuizState, e: Event): (r: QuizState)
    ensures !Offered(q, e) ==> r == q
    ensures Consistent(q) ==> Consistent(r)
  {
    if !Offered(q, e) then q
    else
      match e
      case FileLoaded(text) => LoadCards(text)
      case ShowAnswerClicked => ShowAnswer(q)
      case AnswerClicked(correct) => HandleAnswer(q, correct)
      case TryAgainClicked => ResetQuiz(q)
      case UploadNewClicked => EmptyQuiz()
  }

  /** A sequence of user actions, in order. */
  function Run(q: QuizState, events: seq<Event>): (r: QuizState)
    ensures Consistent(q) ==> Consistent(r)
    decreases |events|
  {
    if events == [] then q else Run(Dispatch(q, events[0]), events[1..])
  }

  /** The card on screen: the first one not yet answered. */
  function CurrentCard(q: QuizState): (c: Flashcard)
    requires Consistent(q) && ScreenOf(q).CardView?
    ensures |q.userAnswers| < |q.cards| && c == q.cards[|q.userAnswers|]
  {
    q.cards[q.currentIndex]
  }

  /** The results view: the score and "You got `correct` out of `total` correct". */
  function Summary(q: QuizState): (s: (int, nat, nat))
    requires Consistent(q) && ScreenOf(q) == Results
    ensures var (score, correct, total) := s;
            && 0 <= score <= 100 && Some(score) == CalculateScore(q.userAnswers)
            && correct == CountCorrect(q.userAnswers) && correct <= total
            && total == |q.userAnswers| == |q.cards|
  {
    (CalculateScore(q.userAnswers).value, CountCorrect(q.userAnswers), |q.userAnswers|)
  }

  // ----- Whole runs -----

  /** Every state the page can reach from its initial one satisfies the counting invariant. */
  lemma ReachableStatesConsistent(events: seq<Event>)
    ensures Consistent(Run(EmptyQuiz(), events))
  {
  }

  lemma RunAppend(q: QuizState, a: seq<Event>, b: seq<Event>)
    ensures Run(q, a + b) == Run(Run(q, a), b)
    decreases |a|
  {
    if a != [] {
      assert (a + b)[1..] == a[1..] + b;
      RunAppend(Dispatch(q, a[0]), a[1..], b);
    } else {
      assert a + b == b;
    }
  }

  /** Going through the cards: "Show Answer" then the verdict, once per answer given. */
  function AnswerAll(verdicts: seq<bool>): seq<Event>
  {
    if verdicts == [] then []
    else [ShowAnswerClicked, AnswerClicked(verdicts[0])] + AnswerAll(verdicts[1..])
  }

  /**
   * From a card whose answer is hidden, giving one verdict per remaining
   * card completes the quiz, with exactly those verdicts appended and the
   * cards untouched.
   */
  lemma {:induction false} AnsweringRemainingCardsCompletes(q: QuizState, verdicts: seq<bool>)
    requires Consistent(q) && ScreenOf(q) == CardView(false)
    requires |verdicts| == |q.cards| - q.currentIndex
    ensures var r := Run(q, AnswerAll(verdicts));
            ScreenOf(r) == Results && r.cards == q.cards && r.userAnswers == q.userAnswers + verdicts
    decreases |verdicts|
  {
    var q1 := ShowAnswer(q);
    var q2 := HandleAnswer(q1, verdicts[0]);
    assert Dispatch(q, ShowAnswerClicked) == q1;
    assert Dispatch(q1, AnswerClicked(verdicts[0])) == q2;
    RunAppend(q, [ShowAnswerClicked, AnswerClicked(verdicts[0])], AnswerAll(verdicts[1..]));
    assert Run(q, [ShowAnswerClicked, AnswerClicked(verdicts[0])]) == q2 by {
      assert [ShowAnswerClicked, AnswerClicked(verdicts[0])][1..] == [AnswerClicked(verdicts[0])];
      assert Run(q1, [AnswerClicked(verdicts[0])]) == Run(q2, []);
    }
    if q.currentIndex < |q.cards| - 1 {
      AnsweringRemainingCardsCompletes(q2, verdicts[1..]);
      assert q2.userAnswers + verdicts[1..] == q.userAnswers + verdicts;
    } else {
      assert verdicts == [verdicts[0]];
      assert AnswerAll(verdicts[1..]) == [];
    }
  }

  /**
   * End to end: uploading a file with cards and judging every card takes
   * the page to its results, which score exactly the verdicts given.
   */
  lemma UploadAndAnswerEveryCard(text: string, verdicts: seq<bool>)
    requires ParseCards(text) != [] && |verdicts| == |ParseCards(text)|
    ensures var r := Run(EmptyQuiz(), [FileLoaded(text)] + AnswerAll(verdicts));
            && ScreenOf(r) == Results && r.cards == ParseCards(text) && r.userAnswers == verdicts
            && Summary(r).0 == CalculateScore(verdicts).value
  {
    var q, events := LoadCards(text), AnswerAll(verdicts);
    assert Dispatch(EmptyQuiz(), FileLoaded(text)) == q;
    assert ([FileLoaded(text)] + events)[1..] == events;
    assert Run(EmptyQuiz(), [FileLoaded(text)] + events) == Run(q, events);
    AnsweringRemainingCardsCompletes(q, verdicts);
    assert Consistent(Run(q, events));
  }
}
