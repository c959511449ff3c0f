/**
 The quiz session engine: the state the results screen keeps for one quiz
 (selections, revealed hints, eliminated options, skipped questions, the
 power-up counters and the "answers shown" flag), the handlers that change
 it, and the scoring done on submit.

 Conditions the page enforces by disabling or hiding a control, and that the
 handler does not test itself, are preconditions of the handler.
 */
module QuizSession {

  import opened Options
  import Performance
  import Achievements
  import Feedback

  /** One generated question: the question text, its options, the correct
      option, and an optional hint and explanation (empty when absent). */
  datatype Question = Question(
    question: string,
    options: seq<string>,
    answer: string,
    hint: string,
    explanation: string)

  const InitialHints := 3
  const InitialEliminations := 1
  const InitialSkips := 1

  /** The session state. `QuizDisplay` keeps revealed hints and skipped
      questions as objects whose values are always `true`; they are sets of
      indices here. */
  datatype Session = Session(
    selected: map<nat, string>,
    revealedHints: set<nat>,
    eliminated: map<nat, seq<string>>,
    skipped: set<nat>,
    hintsRemaining: int,
    eliminateTwoLeft: int,
    skipLeft: int,
    showAnswers: bool)

  /** The state when the quiz is first shown. */
  function Initial(): (s: Session)
    ensures s.hintsRemaining == InitialHints && s.revealedHints == {}
    ensures s.eliminateTwoLeft == InitialEliminations && s.eliminated == map[]
    ensures s.skipLeft == InitialSkips && s.skipped == {}
    ensures s.selected == map[] && !s.showAnswers
  {
    Session(map[], {}, map[], {}, InitialHints, InitialEliminations, InitialSkips, false)
  }

  /** The invariant of every reachable state: indices are in range, a
      selection is one of its question's options, eliminated options are
      wrong options, and each counter plus its number of uses is its initial
      value. */
  predicate Valid(quiz: seq<Question>, s: Session) {
    && (forall i | i in s.selected :: i < |quiz| && s.selected[i] in quiz[i].options)
    && (forall i | i in s.revealedHints :: i < |quiz|)
    && (forall i | i in s.skipped :: i < |quiz|)
    && (forall i | i in s.eliminated ::
          && i < |quiz|
          && |s.eliminated[i]| <= 2
          && (forall o | o in s.eliminated[i] :: o in quiz[i].options && o != quiz[i].answer))
    && 0 <= s.hintsRemaining && s.hintsRemaining + |s.revealedHints| == InitialHints
    && 0 <= s.eliminateTwoLeft && s.eliminateTwoLeft + |s.eliminated| == InitialEliminations
    && 0 <= s.skipLeft && s.skipLeft + |s.skipped| == InitialSkips
  }

  // ---------------------------------------------------------------------
  // Handlers

  /** `handleOptionSelect`. The option buttons are disabled once answers are
      shown and for eliminated options, and only the question's own options
      are offered; the handler itself ignores skipped questions. */
  function HandleOptionSelect(quiz: seq<Question>, s: Session, index: nat, option: string): (r: Session)
    requires index < |quiz| && !s.showAnswers
    requires option in quiz[index].options
    requires index in s.eliminated ==> option !in s.eliminated[index]
    ensures index in s.skipped ==> r == s
    ensures index !in s.skipped ==> index in r.selected && r.selected[index] == option
    ensures forall j | j != index :: j in r.selected <==> j in s.selected
    ensures forall j | j != index && j in s.selected :: r.selected[j] == s.selected[j]
    ensures r.(selected := s.selected) == s
  {
    if index in s.skipped then s
    else s.(selected := s.selected[index := option])
  }

  /** What a hint request did: showed the hint, was ignored (hint already
      shown, or answers shown), or found no hints left. */
  datatype HintOutcome = HintShown | Ignored | NoHintsLeft
  datatype HintResult = HintResult(session: Session, outcome: HintOutcome)

  /** `revealHint`. The hint control exists only for a question that has a
      hint and is not skipped. A hint already shown, or answers already
      shown, make it a no-op; with hints left it shows the hint and takes
      one; with none left it changes nothing and reports exhaustion (the
      handler's alert). */
  function RevealHint(quiz: seq<Question>, s: Session, index: nat): (r: HintResult)
    requires index < |quiz| && index !in s.skipped && quiz[index].hint != []
    ensures index in s.revealedHints || s.showAnswers ==> r == HintResult(s, Ignored)
    ensures r.outcome == HintShown <==>
      index !in s.revealedHints && !s.showAnswers && s.hintsRemaining > 0
    ensures r.outcome == NoHintsLeft <==>
      index !in s.revealedHints && !s.showAnswers && s.hintsRemaining <= 0
    ensures r.outcome != HintShown ==> r.session == s
    ensures r.outcome == HintShown ==>
      && index in r.session.revealedHints
      && r.session.hintsRemaining == s.hintsRemaining - 1
      && r.session.(hintsRemaining := s.hintsRemaining, revealedHints := s.revealedHints) == s
    ensures r.session.hintsRemaining + |r.session.revealedHints| == s.hintsRemaining + |s.revealedHints|
    ensures s.hintsRemaining >= 0 ==> r.session.hintsRemaining >= 0
  {
    if index in s.revealedHints || s.showAnswers then HintResult(s, Ignored)
    else if s.hintsRemaining > 0 then
      HintResult(s.(hintsRemaining := s.hintsRemaining - 1, revealedHints := s.revealedHints + {index}), HintShown)
    else HintResult(s, NoHintsLeft)
  }

  /** `options.filter(opt => opt !== answer)`. */
  function WrongOptions(q: Question): (w: seq<string>)
    ensures forall o :: multiset(w)[o] == if o == q.answer then 0 else multiset(q.options)[o]
  {
    Without(q.options, q.answer)
  }

  function Without(xs: seq<string>, x: string): (w: seq<string>)
    ensures forall o :: multiset(w)[o] == if o == x then 0 else multiset(xs)[o]
  {
    if |xs| == 0 then []
    else
      assert xs == [xs[0]] + xs[1..];
      (if xs[0] == x then [] else [xs[0]]) + Without(xs[1..], x)
  }

  function Min(a: int, b: int): int {
    if a <= b then a else b
  }

  /** `useEliminateTwo`. `shuffled` stands for the randomly ordered wrong
      options; the first two (or fewer) are eliminated. The 50/50 control
      exists only before answers are shown and for questions not skipped;
      the handler itself does nothing when the power-up is spent or the
      question already has eliminations. */
  function UseEliminateTwo(quiz: seq<Question>, s: Session, index: nat, shuffled: seq<string>): (r: Session)
    requires index < |quiz| && !s.showAnswers && index !in s.skipped
    requires multiset(shuffled) == multiset(WrongOptions(quiz[index]))
    ensures s.eliminateTwoLeft <= 0 || index in s.eliminated ==> r == s
    ensures s.eliminateTwoLeft > 0 && index !in s.eliminated ==>
      && r.eliminated.Keys == s.eliminated.Keys + {index}
      && (forall j | j in s.eliminated :: r.eliminated[j] == s.eliminated[j])
      && quiz[index].answer !in r.eliminated[index]
      && (forall o | o in r.eliminated[index] :: o in quiz[index].options)
      && |r.eliminated[index]| == Min(2, |WrongOptions(quiz[index])|)
      && multiset(r.eliminated[index]) <= multiset(WrongOptions(quiz[index]))
      && r.eliminateTwoLeft == s.eliminateTwoLeft - 1
      && r.(eliminated := s.eliminated, eliminateTwoLeft := s.eliminateTwoLeft) == s
  {
    if s.eliminateTwoLeft > 0 && index !in s.eliminated then
      var picked := shuffled[..Min(2, |shuffled|)];
      PickedAreWrong(quiz[index], shuffled, |picked|);
      s.(eliminated := s.eliminated[index := picked], eliminateTwoLeft := s.eliminateTwoLeft - 1)
    else s
  }

  /** A prefix of a permutation of the wrong options holds only wrong
      options, each at most as often as among the options. */
  lemma PickedAreWrong(q: Question, shuffled: seq<string>, k: nat)
    requires multiset(shuffled) == multiset(WrongOptions(q)) && k <= |shuffled|
    ensures |shuffled| == |WrongOptions(q)|
    ensures multiset(shuffled[..k]) <= multiset(WrongOptions(q))
    ensures forall o | o in shuffled[..k] :: o in q.options && o != q.answer
  {
    var w := WrongOptions(q);
    assert |multiset(shuffled)| == |shuffled| && |multiset(w)| == |w|;
    assert shuffled == shuffled[..k] + shuffled[k..];
    assert multiset(shuffled) == multiset(shuffled[..k]) + multiset(shuffled[k..]);
    forall o | o in shuffled[..k] ensures o in q.options && o != q.answer {
      assert o in multiset(w);
      assert multiset(w)[o] == if o == q.answer then 0 else multiset(q.options)[o];
      assert o in multiset(q.options);
    }
  }

  /** `useSkipQuestion`. The skip control exists only before answers are
      shown; the handler itself does nothing when the power-up is spent or
      the question is already skipped. A selection already made stays. */
  function UseSkipQuestion(quiz: seq<Question>, s: Session, index: nat): (r: Session)
    requires index < |quiz| && !s.showAnswers
    ensures s.skipLeft <= 0 || index in s.skipped ==> r == s
    ensures s.skipLeft > 0 && index !in s.skipped ==>
      && r.skipped == s.skipped + {index}
      && r.skipLeft == s.skipLeft - 1
      && r.selected == s.selected
      && r.(skipped := s.skipped, skipLeft := s.skipLeft) == s
  {
    if s.skipLeft > 0 && index !in s.skipped then
      s.(skipped := s.skipped + {index}, skipLeft := s.skipLeft - 1)
    else s
  }

  // ---------------------------------------------------------------------
  // Scoring

  /** Question `i` counts towards the score. */
  predicate IsCorrect(quiz: seq<Question>, s: Session, i: nat)
    requires i < |quiz|
  {
    i !in s.skipped && i in s.selected && s.selected[i] == quiz[i].answer
  }

  /** Question `i` is reported as answered incorrectly: not skipped, and
      no selection or a selection other than the answer. */
  predicate IsMissed(quiz: seq<Question>, s: Session, i: nat)
    requires i < |quiz|
  {
    i !in s.skipped && !(i in s.selected && s.selected[i] == quiz[i].answer)
  }

  /** The skipped indices below `n`. */
  function SkippedBelow(s: Session, n: nat): set<nat> {
    set i | i in s.skipped && i < n
  }

  /** The number of questions below `n` that are not skipped. */
  function AttemptedBelow(s: Session, n: nat): (k: nat)
    ensures k + |SkippedBelow(s, n)| == n
  {
    if n == 0 then
      assert SkippedBelow(s, 0) == {};
      0
    else
      var below := SkippedBelow(s, n - 1);
      if n - 1 in s.skipped then
        assert SkippedBelow(s, n) == below + {n - 1};
        AttemptedBelow(s, n - 1)
      else
        assert SkippedBelow(s, n) == below;
        AttemptedBelow(s, n - 1) + 1
  }

  /** `calculateScore` over the first `n` questions: the number of questions
      below `n` that are not skipped and whose selection is the answer. */
  function ScoreBelow(quiz: seq<Question>, s: Session, n: nat): (score: nat)
    requires n <= |quiz|
    ensures score == |CorrectBelow(quiz, s, n)|
    ensures score <= AttemptedBelow(s, n)
  {
    if n == 0 then
      assert CorrectBelow(quiz, s, 0) == {};
      0
    else
      CorrectBelowStep(quiz, s, n);
      ScoreBelow(quiz, s, n - 1) + (if IsCorrect(quiz, s, n - 1) then 1 else 0)
  }

  /** The questions below `n` that count towards the score. */
  function CorrectBelow(quiz: seq<Question>, s: Session, n: nat): set<nat>
    requires n <= |quiz|
  {
    set i: nat | i < n && IsCorrect(quiz, s, i)
  }

  lemma CorrectBelowStep(quiz: seq<Question>, s: Session, n: nat)
    requires 0 < n <= |quiz|
    ensures IsCorrect(quiz, s, n - 1) ==>
      |CorrectBelow(quiz, s, n)| == |CorrectBelow(quiz, s, n - 1)| + 1
    ensures !IsCorrect(quiz, s, n - 1) ==>
      CorrectBelow(quiz, s, n) == CorrectBelow(quiz, s, n - 1)
  {
    if IsCorrect(quiz, s, n - 1) {
      assert CorrectBelow(quiz, s, n) == CorrectBelow(quiz, s, n - 1) + {n - 1};
    }
  }

  /** The indices below `n` reported to the performance tracker, in order. */
  function MissedBelow(quiz: seq<Question>, s: Session, n: nat): (missed: seq<nat>)
    requires n <= |quiz|
    ensures forall i: nat :: i in missed <==> i < n && IsMissed(quiz, s, i)
    ensures forall a, b | 0 <= a < b < |missed| :: missed[a] < missed[b]
    ensures |missed| + ScoreBelow(quiz, s, n) == AttemptedBelow(s, n)
  {
    if n == 0 then []
    else
      var prev := MissedBelow(quiz, s, n - 1);
      forall a | 0 <= a < |prev| ensures prev[a] < n - 1 {
        assert prev[a] in prev;
      }
      prev + (if IsMissed(quiz, s, n - 1) then [n - 1] else [])
  }

  /** `calculateScore`. */
  function CalculateScore(quiz: seq<Question>, s: Session): (score: nat)
    ensures score == |CorrectBelow(quiz, s, |quiz|)|
  {
    ScoreBelow(quiz, s, |quiz|)
  }

  /** `quiz.length - Object.keys(skippedQuestions).length`: with every
      skipped index inside the quiz, the number of questions not skipped. */
  function Attempted(quiz: seq<Question>, s: Session): (k: int)
    ensures SkippedInQuiz(quiz, s) ==> k == AttemptedBelow(s, |quiz|)
  {
    assert SkippedInQuiz(quiz, s) ==> SkippedBelow(s, |quiz|) == s.skipped;
    |quiz| - |s.skipped|
  }

  /** Every skipped index is a question of the quiz. */
  predicate SkippedInQuiz(quiz: seq<Question>, s: Session) {
    forall i | i in s.skipped :: i < |quiz|
  }

  /** With every skipped index inside the quiz, the attempted count is the
      number of questions not skipped, and bounds the score. */
  lemma ScoreBounds(quiz: seq<Question>, s: Session)
    requires SkippedInQuiz(quiz, s)
    ensures Attempted(quiz, s) == AttemptedBelow(s, |quiz|)
    ensures 0 <= CalculateScore(quiz, s) <= Attempted(quiz, s) <= |quiz|
    ensures |MissedBelow(quiz, s, |quiz|)| == Attempted(quiz, s) - CalculateScore(quiz, s)
  {
    assert SkippedBelow(s, |quiz|) == s.skipped;
  }

  /** `Math.round(score / attempted * 100)` on the exact ratio, or 0 when
      nothing was attempted. */
  function Percentage(score: nat, attempted: int): (p: int)
    ensures attempted <= 0 ==> p == 0
    ensures attempted > 0 ==> -attempted < 2 * (p * attempted - 100 * score) <= attempted
    ensures score <= attempted ==> 0 <= p <= 100
    ensures 0 < attempted == score ==> p == 100
  {
    if attempted > 0 then
      var p := (200 * score + attempted) / (2 * attempted);
      PercentageBounds(score, attempted, p);
      p
    else 0
  }

  lemma PercentageBounds(score: nat, attempted: int, p: int)
    requires attempted > 0 && p == (200 * score + attempted) / (2 * attempted)
    ensures -attempted < 2 * (p * attempted - 100 * score) <= attempted
    ensures score <= attempted ==> 0 <= p <= 100
    ensures score == attempted ==> p == 100
  {
    var a := attempted;
    var n := 200 * score + a;
    var m := n % (2 * a);
    assert n == (2 * a) * p + m && 0 <= m < 2 * a;
    assert (2 * a) * p == 2 * (p * a);
    assert 2 * (p * a - 100 * score) == a - m;
    if score <= a {
      if p > 100 {
        MulLe(101, p, a);
      }
      if p < 0 {
        MulLe(p, -1, a);
      }
    }
    if score == a && p < 100 {
      MulLe(p, 99, a);
    }
  }

  lemma MulLe(x: int, y: int, a: int)
    requires x <= y && a > 0
    ensures x * a <= y * a
  {
  }

  // ---------------------------------------------------------------------
  // Submit

  /** What grading a submitted quiz yields. */
  datatype Grading = Grading(score: nat, attempted: int, percentage: int, reported: seq<nat>) {
    /** The `PERFECT_SCORE` condition: something was attempted and all of
        it was right. */
    predicate Perfect() {
      0 < attempted == score
    }
  }

  datatype Summary = Summary(
    grading: Grading,
    newUnlocks: seq<string>,
    feedback: Feedback.FeedbackResult)

  datatype SubmitResult = SubmitResult(
    session: Session,
    performance: Performance.PerformanceStore,
    ledger: Achievements.LedgerStore,
    summary: Summary)

  /** `k` copies of `topic`. */
  function Copies(topic: string, k: nat): (c: seq<string>)
    ensures |c| == k && forall i | 0 <= i < k :: c[i] == topic
  {
    seq(k, _ => topic)
  }

  /** `recordIncorrectAnswer(topic)` called `k` times in a row. */
  function RecordTimes(store: Performance.PerformanceStore, topic: string, k: nat): (r: Performance.PerformanceStore)
    ensures topic == [] || k == 0 ==> r == store
    ensures topic != [] ==> Performance.Load(r) == Performance.Load(store) + Copies(topic, k)
  {
    if k == 0 then
      assert Performance.Load(store) + Copies(topic, k) == Performance.Load(store);
      store
    else
      var prev := RecordTimes(store, topic, k - 1);
      var r := Performance.RecordIncorrectAnswer(prev, topic);
      assert topic != [] ==> Performance.Load(r) == Performance.Load(prev) + [topic];
      r
  }

  /** An unlock attempted only when its condition holds. */
  function UnlockWhen(ledger: Achievements.LedgerStore, condition: bool, id: string): (r: Achievements.UnlockResult)
    ensures r.newlyUnlocked <==> condition && !Achievements.IsUnlocked(Achievements.GetUnlocked(ledger), id)
    ensures forall k | k != id :: k in Achievements.GetUnlocked(r.store) <==> k in Achievements.GetUnlocked(ledger)
    ensures forall k | k != id && k in Achievements.GetUnlocked(ledger) ::
      Achievements.GetUnlocked(r.store)[k] == Achievements.GetUnlocked(ledger)[k]
    ensures condition ==> Achievements.IsUnlocked(Achievements.GetUnlocked(r.store), id)
    ensures !condition ==> r.store == ledger
    ensures forall k | k != id || !r.newlyUnlocked ::
      Achievements.IsUnlocked(Achievements.GetUnlocked(r.store), k)
        == Achievements.IsUnlocked(Achievements.GetUnlocked(ledger), k)
  {
    if condition then Achievements.UnlockAchievement(ledger, id) else Achievements.UnlockResult(ledger, false)
  }

  datatype UnlockSummary = UnlockSummary(store: Achievements.LedgerStore, newUnlocks: seq<string>)

  /** The achievement ids pushed onto the new-unlock list, in push order:
      `FIRST_QUIZ` when `first`, then `NO_HINTS` when `noHints`, then
      `PERFECT_SCORE` when `perfect`. */
  function Pushed(first: bool, noHints: bool, perfect: bool): (ids: seq<string>)
    ensures Achievements.FirstQuiz in ids <==> first
    ensures Achievements.NoHints in ids <==> noHints
    ensures Achievements.PerfectScore in ids <==> perfect
    ensures forall id | id in ids ::
      id == Achievements.FirstQuiz || id == Achievements.NoHints || id == Achievements.PerfectScore
    ensures forall i, j | 0 <= i < j < |ids| :: ids[i] != ids[j]
  {
    (if first then [Achievements.FirstQuiz] else [])
    + (if noHints then [Achievements.NoHints] else [])
    + (if perfect then [Achievements.PerfectScore] else [])
  }

  /** What submit's three unlock attempts promise of their summary `r`,
      given the ledger before them: the new unlocks are the ids that were
      locked and whose condition holds (`FIRST_QUIZ` always, `NO_HINTS` when
      `noHints`, `PERFECT_SCORE` when `perfect`), in that order and without
      repeats; each of those ids is unlocked afterwards; every other id keeps
      its state; and nothing unlocked is revoked. */
  ghost predicate UnlocksApplied(ledger: Achievements.LedgerStore, noHints: bool, perfect: bool, r: UnlockSummary) {
    var before := Achievements.GetUnlocked(ledger);
    var after := Achievements.GetUnlocked(r.store);
    && r.newUnlocks == Pushed(
         !Achievements.IsUnlocked(before, Achievements.FirstQuiz),
         noHints && !Achievements.IsUnlocked(before, Achievements.NoHints),
         perfect && !Achievements.IsUnlocked(before, Achievements.PerfectScore))
    && Achievements.IsUnlocked(after, Achievements.FirstQuiz)
    && (noHints ==> Achievements.IsUnlocked(after, Achievements.NoHints))
    && (perfect ==> Achievements.IsUnlocked(after, Achievements.PerfectScore))
    && (forall id | id !in r.newUnlocks :: Achievements.IsUnlocked(after, id) == Achievements.IsUnlocked(before, id))
    && (forall id | Achievements.IsUnlocked(before, id) :: Achievements.IsUnlocked(after, id))
  }

  /** The three unlock attempts of submit, in order: `FIRST_QUIZ` always,
      `NO_HINTS` and `PERFECT_SCORE` when their conditions hold. */
  function SubmitUnlocks(ledger: Achievements.LedgerStore, noHints: bool, perfect: bool): (r: UnlockSummary)
    ensures UnlocksApplied(ledger, noHints, perfect, r)
  {
    var first := Achievements.UnlockAchievement(ledger, Achievements.FirstQuiz);
    var second := UnlockWhen(first.store, noHints, Achievements.NoHints);
    var third := UnlockWhen(second.store, perfect, Achievements.PerfectScore);
    UnlockSummary(third.store, Pushed(first.newlyUnlocked, second.newlyUnlocked, third.newlyUnlocked))
  }

  /** The `NO_HINTS` condition. */
  predicate UsedNoHints(s: Session) {
    s.hintsRemaining == InitialHints && |s.revealedHints| == 0
  }

  /** The facts a grading of `quiz` in session `s` satisfies: it reports
      exactly the missed questions, in increasing order; the score counts the
      questions not skipped whose selection is the answer; the attempted
      count is the number of questions less the skipped ones; and the
      percentage is `100 * score / attempted` rounded half up, or 0 without
      attempts. With every skipped index inside the quiz, the counts are
      bounded and the reports are the attempted questions not scored. */
  ghost predicate Graded(quiz: seq<Question>, s: Session, g: Grading) {
    && g.attempted == |quiz| - |s.skipped|
    && (forall i: nat :: i in g.reported <==> i < |quiz| && IsMissed(quiz, s, i))
    && (forall a, b | 0 <= a < b < |g.reported| :: g.reported[a] < g.reported[b])
    && g.score == |CorrectBelow(quiz, s, |quiz|)|
    && (g.attempted <= 0 ==> g.percentage == 0)
    && (g.attempted > 0 ==>
          -g.attempted < 2 * (g.percentage * g.attempted - 100 * g.score) <= g.attempted)
    && (SkippedInQuiz(quiz, s) ==>
          && 0 <= g.score <= g.attempted <= |quiz|
          && |g.reported| == g.attempted - g.score
          && 0 <= g.percentage <= 100)
  }

  /** The grading part of `handleSubmit`: the missed questions, the score,
      the attempted count and the rounded percentage. */
  function Grade(quiz: seq<Question>, s: Session): (g: Grading)
    ensures Graded(quiz, s, g)
  {
    var reported := MissedBelow(quiz, s, |quiz|);
    var score := CalculateScore(quiz, s);
    var attempted := Attempted(quiz, s);
    var g := Grading(score, attempted, Percentage(score, attempted), reported);
    if SkippedInQuiz(quiz, s) then
      ScoreBounds(quiz, s);
      g
    else g
  }

  /** `handleSubmit`. The submit button is shown only while answers are
      hidden, so it runs at most once per quiz; `captionChoice` and
      `memeChoice` stand for the feedback selector's random picks. */
  function HandleSubmit(
    quiz: seq<Question>, s: Session, topic: string,
    performance: Performance.PerformanceStore, ledger: Achievements.LedgerStore,
    captionChoice: nat, memeChoice: nat): (r: SubmitResult)
    requires !s.showAnswers
    requires captionChoice < 4 && memeChoice < 3
    ensures r.session.showAnswers && r.session.(showAnswers := false) == s
    ensures Graded(quiz, s, r.summary.grading)
    ensures topic == [] ==> r.performance == performance
    ensures topic != [] ==>
      Performance.Load(r.performance)
        == Performance.Load(performance) + Copies(topic, |r.summary.grading.reported|)
    ensures UnlockSummary(r.ledger, r.summary.newUnlocks)
      == SubmitUnlocks(ledger, UsedNoHints(s), r.summary.grading.Perfect())
    ensures r.summary.feedback
      == Feedback.FeedbackForScore(r.summary.grading.percentage, captionChoice, memeChoice)
  {
    var g := Grade(quiz, s);
    var unlocks := SubmitUnlocks(ledger, UsedNoHints(s), g.Perfect());
    SubmitResult(
      s.(showAnswers := true),
      RecordTimes(performance, topic, |g.reported|),
      unlocks.store,
      Summary(g, unlocks.newUnlocks, Feedback.FeedbackForScore(g.percentage, captionChoice, memeChoice)))
  }

  // ---------------------------------------------------------------------
  // Reachable states

  /** A user action on the quiz before submitting. */
  datatype Action =
    | Select(index: nat, option: string)
    | ShowHint(index: nat)
    | Eliminate(index: nat, shuffled: seq<string>)
    | Skip(index: nat)

  /** The page offers the action in this state. */
  predicate Enabled(quiz: seq<Question>, s: Session, a: Action) {
    match a
    case Select(i, o) =>
      i < |quiz| && !s.showAnswers && o in quiz[i].options
      && (i in s.eliminated ==> o !in s.eliminated[i])
    case ShowHint(i) => i < |quiz| && i !in s.skipped && quiz[i].hint != []
    case Eliminate(i, shuffled) =>
      i < |quiz| && !s.showAnswers && i !in s.skipped
      && multiset(shuffled) == multiset(WrongOptions(quiz[i]))
    case Skip(i) => i < |quiz| && !s.showAnswers
  }

  function Step(quiz: seq<Question>, s: Session, a: Action): Session
    requires Enabled(quiz, s, a)
  {
    match a
    case Select(i, o) => HandleOptionSelect(quiz, s, i, o)
    case ShowHint(i) => RevealHint(quiz, s, i).session
    case Eliminate(i, shuffled) => UseEliminateTwo(quiz, s, i, shuffled)
    case Skip(i) => UseSkipQuestion(quiz, s, i)
  }

  /** The state after a run of actions, or `None` when one of them is not
      offered at its turn. */
  function Run(quiz: seq<Question>, s: Session, actions: seq<Action>): Option<Session>
    decreases |actions|
  {
    if |actions| == 0 then Some(s)
    else if Enabled(quiz, s, actions[0]) then Run(quiz, Step(quiz, s, actions[0]), actions[1..])
    else None
  }

  /** Every handler keeps the invariant. */
  lemma StepValid(quiz: seq<Question>, s: Session, a: Action)
    requires Valid(quiz, s) && Enabled(quiz, s, a)
    ensures Valid(quiz, Step(quiz, s, a))
  {
    match a
    case Select(i, o) =>
    case ShowHint(i) =>
      HintValid(quiz, s, i);
    case Eliminate(i, shuffled) =>
      EliminateValid(quiz, s, i, shuffled);
    case Skip(i) =>
      SkipValid(quiz, s, i);
  }

  lemma HintValid(quiz: seq<Question>, s: Session, i: nat)
    requires Valid(quiz, s) && i < |quiz| && i !in s.skipped && quiz[i].hint != []
    ensures Valid(quiz, RevealHint(quiz, s, i).session)
  {
    var r := RevealHint(quiz, s, i);
    if r.outcome == HintShown {
      assert |r.session.revealedHints| == |s.revealedHints| + 1;
    }
  }

  lemma EliminateValid(quiz: seq<Question>, s: Session, i: nat, shuffled: seq<string>)
    requires Valid(quiz, s) && i < |quiz| && !s.showAnswers && i !in s.skipped
    requires multiset(shuffled) == multiset(WrongOptions(quiz[i]))
    ensures Valid(quiz, UseEliminateTwo(quiz, s, i, shuffled))
  {
    var r := UseEliminateTwo(quiz, s, i, shuffled);
    if s.eliminateTwoLeft > 0 && i !in s.eliminated {
      assert |r.eliminated.Keys| == |s.eliminated.Keys| + 1;
    }
  }

  lemma SkipValid(quiz: seq<Question>, s: Session, i: nat)
    requires Valid(quiz, s) && i < |quiz| && !s.showAnswers
    ensures Valid(quiz, UseSkipQuestion(quiz, s, i))
  {
  }

  /** Every state reachable from the initial one satisfies the invariant;
      in particular the counters never go negative, `hintsRemaining` plus the
      revealed hints is 3, and each power-up counter plus its uses is 1. */
  lemma {:induction false} RunValid(quiz: seq<Question>, s: Session, actions: seq<Action>)
    requires Valid(quiz, s) && Run(quiz, s, actions).Some?
    ensures Valid(quiz, Run(quiz, s, actions).value)
    decreases |actions|
  {
    if |actions| > 0 {
      StepValid(quiz, s, actions[0]);
      RunValid(quiz, Step(quiz, s, actions[0]), actions[1..]);
    }
  }

  lemma ReachableValid(quiz: seq<Question>, actions: seq<Action>)
    requires Run(quiz, Initial(), actions).Some?
    ensures Valid(quiz, Run(quiz, Initial(), actions).value)
  {
    RunValid(quiz, Initial(), actions);
  }

  /** With four distinct options one of which is the answer, the 50/50
      eliminates exactly two options. */
  lemma FourOptionsEliminateTwo(quiz: seq<Question>, s: Session, index: nat, shuffled: seq<string>)
    requires index < |quiz| && !s.showAnswers && index !in s.skipped
    requires multiset(shuffled) == multiset(WrongOptions(quiz[index]))
    requires s.eliminateTwoLeft > 0 && index !in s.eliminated
    requires |quiz[index].options| == 4 && quiz[index].answer in quiz[index].options
    requires forall i, j | 0 <= i < j < 4 :: quiz[index].options[i] != quiz[index].options[j]
    ensures |UseEliminateTwo(quiz, s, index, shuffled).eliminated[index]| == 2
  {
    var q := quiz[index];
    var w := WrongOptions(q);
    assert multiset(q.options)[q.answer] == 1 by {
      var k :| 0 <= k < 4 && q.options[k] == q.answer;
      DistinctCount(q.options, k);
    }
    assert |multiset(w)| == |multiset(q.options)| - 1 by {
      assert multiset(w) == multiset(q.options) - multiset{q.answer};
    }
  }

  /** In a sequence without repeats, an element occurs once. */
  lemma DistinctCount(xs: seq<string>, k: nat)
    requires k < |xs| && forall i, j | 0 <= i < j < |xs| :: xs[i] != xs[j]
    ensures multiset(xs)[xs[k]] == 1
  {
    if |xs| > 0 {
      assert xs == [xs[0]] + xs[1..];
      if k == 0 {
        assert xs[0] !in xs[1..];
      } else {
        DistinctCount(xs[1..], k - 1);
      }
    }
  }

  /** Eliminating does not clear a selection: an option selected before the
      50/50 can end up both selected and eliminated. */
  lemma EliminationKeepsSelection()
    ensures var q := Question("Q", ["a", "b", "c", "d"], "a", "", "");
      var s := HandleOptionSelect([q], Initial(), 0, "b");
      var r := UseEliminateTwo([q], s, 0, ["b", "c", "d"]);
      r.selected[0] == "b" && "b" in r.eliminated[0]
  {
    var q := Question("Q", ["a", "b", "c", "d"], "a", "", "");
    assert WrongOptions(q) == ["b", "c", "d"];
  }
}
