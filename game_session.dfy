/**
 The game session of the flag quiz as a value: the ten pieces of state the
 game component keeps, the transitions its handlers make, and the properties
 those transitions keep. The component class in FlagLearningGame is proved to
 make exactly these transitions.
 */
module GameSession {
  import opened Wrappers
  import opened FlagsData

  const InitialLives := 3

  /** Points per streak step: the n-th consecutive correct answer earns 10 * n. */
  const PointsPerStep := 10

  datatype Session = Session(
    gameStarted: bool,
    currentFlagIndex: nat,
    score: nat,
    streak: nat,
    bestStreak: nat,
    lives: int,
    flagsAnswered: nat,
    selectedOption: Option<string>,
    isRevealed: bool,
    gameOver: bool)

  /** The state a session starts in and returns to on reset. */
  function Initial(): Session {
    Session(false, 0, 0, 0, 0, InitialLives, 0, None, false, false)
  }

  /** The round currently shown. */
  function CurrentFlag(s: Session): FlagRecord
    requires s.currentFlagIndex < |Catalog|
  {
    Catalog[s.currentFlagIndex]
  }

  /** Points earned by a correct answer given with `streak` consecutive correct answers before it. */
  function AnswerPoints(streak: nat): (p: nat)
    ensures p >= PointsPerStep
  {
    PointsPerStep * (streak + 1)
  }

  /** Points earned by a run of `n` consecutive correct answers started from a zero streak. */
  function StreakPoints(n: nat): nat {
    if n == 0 then 0 else StreakPoints(n - 1) + AnswerPoints(n - 1)
  }

  /** A run of n correct answers is worth 10 + 20 + ... + 10n = 5n(n+1). */
  lemma {:induction false} StreakPointsClosedForm(n: nat)
    ensures StreakPoints(n) == 5 * n * (n + 1)
  {
    if n > 0 {
      StreakPointsClosedForm(n - 1);
      assert 5 * n * (n + 1) == 5 * (n - 1) * n + 10 * n;
    }
  }

  // ---------------------------------------------------------------------------
  // Invariants
  // ---------------------------------------------------------------------------

  /**
   What holds of every session between a handler and the best-streak effect:
   the round index is in the catalog, lives stay in [0, 3] and hit 0 exactly at
   game over, a reveal goes with a selection, and the counters agree with one
   another (wrong answers cost one life each; each streak's points are in the score).
   */
  predicate Consistent(s: Session) {
    && s.currentFlagIndex < |Catalog|
    && 0 <= s.lives <= InitialLives
    && (s.gameOver <==> s.lives == 0)
    && (s.isRevealed <==> s.selectedOption.Some?)
    && s.streak <= s.flagsAnswered
    && s.bestStreak <= s.flagsAnswered
    && InitialLives - s.lives <= s.flagsAnswered
    && s.score >= StreakPoints(s.streak)
    && s.score >= StreakPoints(s.bestStreak)
    && s.score >= PointsPerStep * (s.flagsAnswered - (InitialLives - s.lives))
  }

  /** The session invariant: consistent, and the best streak is never below the current one. */
  predicate Valid(s: Session) {
    Consistent(s) && s.streak <= s.bestStreak
  }

  lemma InitialValid()
    ensures Valid(Initial()) && !Initial().gameStarted && Initial().lives == InitialLives
  {
  }

  // ---------------------------------------------------------------------------
  // Transitions
  // ---------------------------------------------------------------------------

  /** `startGame`: marks the game as started and changes nothing else. */
  function StartGame(s: Session): (r: Session)
    ensures r.gameStarted
    ensures r.(gameStarted := s.gameStarted) == s
  {
    s.(gameStarted := true)
  }

  predicate IsCorrect(s: Session, option: string)
    requires s.currentFlagIndex < |Catalog|
  {
    option == CurrentFlag(s).country
  }

  /**
   `handleOptionSelect`: ignored while revealed or after game over; otherwise
   reveals the chosen option and scores it. Every update reads the state as it
   was when the handler began, so the game-over test sees the lives before the
   decrement.
   */
  function SelectOption(s: Session, option: string): (r: Session)
    requires s.currentFlagIndex < |Catalog|
    ensures s.isRevealed || s.gameOver ==> r == s
    ensures !s.isRevealed && !s.gameOver ==>
      r.isRevealed && r.selectedOption == Some(option) && r.flagsAnswered == s.flagsAnswered + 1
    ensures r.gameStarted == s.gameStarted && r.currentFlagIndex == s.currentFlagIndex
    ensures r.bestStreak == s.bestStreak
  {
    if s.isRevealed || s.gameOver then s
    else
      var revealed := s.(selectedOption := Some(option), isRevealed := true);
      if IsCorrect(s, option) then
        revealed.(
          score := s.score + AnswerPoints(s.streak),
          streak := s.streak + 1,
          flagsAnswered := s.flagsAnswered + 1)
      else
        revealed.(
          streak := 0,
          lives := s.lives - 1,
          flagsAnswered := s.flagsAnswered + 1,
          gameOver := if s.lives <= 1 then true else s.gameOver)
  }

  /** The `bestStreak` effect: raises the best streak to the current one when it is exceeded. */
  function TrackBestStreak(s: Session): (r: Session)
    ensures r.bestStreak >= r.streak && r.bestStreak >= s.bestStreak
    ensures r.bestStreak == s.bestStreak || r.bestStreak == s.streak
    ensures r.(bestStreak := s.bestStreak) == s
  {
    if s.streak > s.bestStreak then s.(bestStreak := s.streak) else s
  }

  /** One answer click as the user sees it: the handler followed by the best-streak effect. */
  function AnswerRound(s: Session, option: string): Session
    requires s.currentFlagIndex < |Catalog|
  {
    TrackBestStreak(SelectOption(s, option))
  }

  /** `nextFlag`, with the random index drawn by the caller. */
  function NextFlag(s: Session, i: int): (r: Session)
    requires 0 <= i < |Catalog|
    ensures r.currentFlagIndex == i && r.selectedOption == None && !r.isRevealed
    ensures r.(currentFlagIndex := s.currentFlagIndex, selectedOption := s.selectedOption,
               isRevealed := s.isRevealed) == s
  {
    s.(currentFlagIndex := i, selectedOption := None, isRevealed := false)
  }

  // ---------------------------------------------------------------------------
  // Properties of single transitions
  // ---------------------------------------------------------------------------

  /** Answering while revealed or after game over changes nothing, the best streak included. */
  lemma AnswerIgnoredWhenRevealedOrOver(s: Session, option: string)
    requires Valid(s)
    requires s.isRevealed || s.gameOver
    ensures AnswerRound(s, option) == s
  {
  }

  /** A correct answer: 10 * (streak + 1) points, streak and answers up by one, lives and game-over untouched. */
  lemma CorrectAnswer(s: Session, option: string)
    requires Valid(s) && !s.isRevealed && !s.gameOver && IsCorrect(s, option)
    ensures var r := AnswerRound(s, option);
      && r.score == s.score + PointsPerStep * (s.streak + 1)
      && r.streak == s.streak + 1
      && r.flagsAnswered == s.flagsAnswered + 1
      && r.lives == s.lives && r.gameOver == s.gameOver
      && r.isRevealed && r.selectedOption == Some(option)
      && r.bestStreak == if s.streak + 1 > s.bestStreak then s.streak + 1 else s.bestStreak
  {
  }

  /** A wrong answer: streak back to 0, one life lost, answers up by one, score untouched. */
  lemma WrongAnswer(s: Session, option: string)
    requires Valid(s) && !s.isRevealed && !s.gameOver && !IsCorrect(s, option)
    ensures var r := AnswerRound(s, option);
      && r.streak == 0
      && r.lives == s.lives - 1
      && r.flagsAnswered == s.flagsAnswered + 1
      && r.score == s.score && r.bestStreak == s.bestStreak
      && r.isRevealed && r.selectedOption == Some(option)
  {
  }

  /** The game ends on exactly those answers that are wrong and given with at most one life left. */
  lemma GameOverExactlyWhenLastLifeLost(s: Session, option: string)
    requires Valid(s)
    ensures AnswerRound(s, option).gameOver <==>
      s.gameOver || (!s.isRevealed && !IsCorrect(s, option) && s.lives <= 1)
  {
  }

  /** The handler keeps a valid session consistent (the best streak may lag until the effect runs). */
  lemma SelectOptionKeepsConsistent(s: Session, option: string)
    requires Valid(s)
    ensures Consistent(SelectOption(s, option))
  {
    if !s.isRevealed && !s.gameOver && IsCorrect(s, option) {
      assert StreakPoints(s.streak + 1) == StreakPoints(s.streak) + AnswerPoints(s.streak);
    }
  }

  /** The best-streak effect turns a consistent session into a valid one, with bestStreak = max(bestStreak, streak). */
  lemma TrackBestStreakRestoresValid(s: Session)
    requires Consistent(s)
    ensures Valid(TrackBestStreak(s))
    ensures TrackBestStreak(s).bestStreak == if s.streak > s.bestStreak then s.streak else s.bestStreak
  {
  }

  lemma AnswerRoundKeepsValid(s: Session, option: string)
    requires Valid(s)
    ensures Valid(AnswerRound(s, option))
  {
    SelectOptionKeepsConsistent(s, option);
    TrackBestStreakRestoresValid(SelectOption(s, option));
  }

  lemma NextFlagKeepsValid(s: Session, i: int)
    requires Valid(s) && 0 <= i < |Catalog|
    ensures Valid(NextFlag(s, i))
  {
  }

  // ---------------------------------------------------------------------------
  // Sequences of events
  // ---------------------------------------------------------------------------

  /** A user event: the start button, an answer click, the next-flag button (with its random index), the reset button. */
  datatype Event = Start | Choose(option: string) | Next(index: int) | Reset

  predicate IndexInRange(e: Event) {
    e.Next? ==> 0 <= e.index < |Catalog|
  }

  predicate IndicesInRange(events: seq<Event>) {
    forall k :: 0 <= k < |events| ==> IndexInRange(events[k])
  }

  /** The transition one event makes; `resetGame` returns every field to its initial value. */
  function Step(s: Session, e: Event): Session
    requires s.currentFlagIndex < |Catalog| && IndexInRange(e)
  {
    match e
    case Start => StartGame(s)
    case Choose(option) => AnswerRound(s, option)
    case Next(i) => NextFlag(s, i)
    case Reset => Initial()
  }

  lemma StepKeepsValid(s: Session, e: Event)
    requires Valid(s) && IndexInRange(e)
    ensures Valid(Step(s, e))
  {
    match e
    case Choose(option) => AnswerRoundKeepsValid(s, option);
    case _ =>
  }

  /** The session after a sequence of events. */
  function Play(s: Session, events: seq<Event>): (r: Session)
    requires Valid(s) && IndicesInRange(events)
    ensures Valid(r)
    decreases |events|
  {
    if events == [] then s
    else
      StepKeepsValid(s, events[0]);
      Play(Step(s, events[0]), events[1..])
  }

  predicate NoReset(events: seq<Event>) {
    forall k :: 0 <= k < |events| ==> !events[k].Reset?
  }

  /**
   Until the next reset, lives never go up, the score never goes down, and a
   finished game stays finished.
   */
  lemma {:induction false} MonotonicUntilReset(s: Session, events: seq<Event>)
    requires Valid(s) && IndicesInRange(events) && NoReset(events)
    ensures Play(s, events).lives <= s.lives
    ensures Play(s, events).score >= s.score
    ensures Play(s, events).flagsAnswered >= s.flagsAnswered
    ensures s.gameOver ==> Play(s, events).gameOver
    decreases |events|
  {
    if events != [] {
      var next := Step(s, events[0]);
      MonotonicUntilReset(next, events[1..]);
    }
  }

  /** Playing `e` then `rest` is taking the step for `e`, then playing `rest`. */
  lemma PlayCons(s: Session, e: Event, rest: seq<Event>)
    requires Valid(s) && IndexInRange(e) && IndicesInRange(rest)
    ensures IndicesInRange([e] + rest) && Valid(Step(s, e))
    ensures Play(s, [e] + rest) == Play(Step(s, e), rest)
  {
    StepKeepsValid(s, e);
    assert ([e] + rest)[1..] == rest;
  }

  /** From any session, a reset restores every initial value. */
  lemma ResetRestoresDefaults(s: Session)
    requires Valid(s)
    ensures Play(s, [Reset]) == Session(false, 0, 0, 0, 0, 3, 0, None, false, false)
  {
    PlayCons(s, Reset, []);
  }

  /**
   The events of a player who answers every round correctly: the country of
   the round shown, then the next flag `next[0]`, and so on, |next| rounds.
   */
  function CorrectRounds(index: nat, next: seq<int>): (events: seq<Event>)
    requires index < |Catalog|
    requires forall k :: 0 <= k < |next| ==> 0 <= next[k] < |Catalog|
    ensures |events| == 2 * |next|
    ensures IndicesInRange(events)
    decreases |next|
  {
    if next == [] then []
    else [Choose(Catalog[index].country), Next(next[0])] + CorrectRounds(next[0], next[1..])
  }

  /** One correctly answered round followed by the next flag `i`. */
  lemma CorrectRound(s: Session, i: int, rest: seq<Event>) returns (s2: Session)
    requires Valid(s) && !s.isRevealed && !s.gameOver
    requires 0 <= i < |Catalog| && IndicesInRange(rest)
    ensures Valid(s2) && !s2.isRevealed && !s2.gameOver && s2.currentFlagIndex == i
    ensures s2.score == s.score + AnswerPoints(s.streak) && s2.streak == s.streak + 1
    ensures s2.lives == s.lives && s2.flagsAnswered == s.flagsAnswered + 1
    ensures IndicesInRange([Choose(CurrentFlag(s).country), Next(i)] + rest)
    ensures Play(s, [Choose(CurrentFlag(s).country), Next(i)] + rest) == Play(s2, rest)
  {
    var answer := Choose(CurrentFlag(s).country);
    assert [answer, Next(i)] + rest == [answer] + ([Next(i)] + rest);
    CorrectAnswer(s, answer.option);
    var s1 := AnswerRound(s, answer.option);
    PlayCons(s, answer, [Next(i)] + rest);
    PlayCons(s1, Next(i), rest);
    s2 := NextFlag(s1, i);
  }

  /**
   Answering n rounds correctly from a streak of k adds the points of streak
   steps k+1 .. k+n, i.e. 10(k+1) + ... + 10(k+n), and costs no life.
   */
  lemma {:induction false} CorrectRoundsScore(s: Session, next: seq<int>)
    requires Valid(s) && !s.isRevealed && !s.gameOver
    requires forall k :: 0 <= k < |next| ==> 0 <= next[k] < |Catalog|
    ensures var r := Play(s, CorrectRounds(s.currentFlagIndex, next));
      && r.score == s.score + StreakPoints(s.streak + |next|) - StreakPoints(s.streak)
      && r.streak == s.streak + |next|
      && r.lives == s.lives && !r.gameOver && !r.isRevealed
      && r.flagsAnswered == s.flagsAnswered + |next|
    decreases |next|
  {
    if next != [] {
      var rest := CorrectRounds(next[0], next[1..]);
      var s2 := CorrectRound(s, next[0], rest);
      CorrectRoundsScore(s2, next[1..]);
      assert StreakPoints(s.streak + 1) == StreakPoints(s.streak) + AnswerPoints(s.streak);
    }
  }

  /**
   From a fresh streak, three correct answers in a row score 10, 20 and 30:
   the score after the first, second and third round.
   */
  lemma ThreeCorrectAnswersScore(s: Session, i: int, j: int, k: int)
    requires Valid(s) && !s.isRevealed && !s.gameOver && s.streak == 0
    requires 0 <= i < |Catalog| && 0 <= j < |Catalog| && 0 <= k < |Catalog|
    ensures var r := Play(s, CorrectRounds(s.currentFlagIndex, [i]));
      r.score == s.score + 10 && r.streak == 1
    ensures var r := Play(s, CorrectRounds(s.currentFlagIndex, [i, j]));
      r.score == s.score + 10 + 20 && r.streak == 2
    ensures var r := Play(s, CorrectRounds(s.currentFlagIndex, [i, j, k]));
      r.score == s.score + 10 + 20 + 30 && r.streak == 3
  {
    CorrectRoundsScore(s, [i]);
    CorrectRoundsScore(s, [i, j]);
    CorrectRoundsScore(s, [i, j, k]);
    StreakPointsClosedForm(1);
    StreakPointsClosedForm(2);
    StreakPointsClosedForm(3);
  }

  /** A wrong answer resets the multiplier: the next correct answer scores 10 again. */
  lemma MissResetsMultiplier(s: Session, wrong: string, i: int)
    requires Valid(s) && !s.isRevealed && s.lives > 1 && !IsCorrect(s, wrong)
    requires 0 <= i < |Catalog|
    ensures var r := Play(s, [Choose(wrong), Next(i), Choose(Catalog[i].country)]);
      r.score == s.score + 10 && r.streak == 1 && r.lives == s.lives - 1
  {
    var right := Choose(Catalog[i].country);
    WrongAnswer(s, wrong);
    var s1 := AnswerRound(s, wrong);
    var s2 := NextFlag(s1, i);
    CorrectAnswer(s2, right.option);
    PlayCons(s2, right, []);
    PlayCons(s1, Next(i), [right]);
    PlayCons(s, Choose(wrong), [Next(i), right]);
  }
}
