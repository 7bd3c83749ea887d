/**
 The game component: ten pieces of state updated field by field by the
 handlers `startGame`, `handleOptionSelect`, `nextFlag` and `resetGame` and by
 the best-streak effect, and the screen it renders from them: the welcome
 screen, the game over screen with the leaderboard, or the round with its four
 answer buttons and, once revealed, the next-flag button.
 */
module FlagLearningGame {
  import opened Wrappers
  import opened FlagsData
  import GameSession
  import QuizOption
  import Scoreboard

  type Session = GameSession.Session

  class Game {
    var gameStarted: bool
    var currentFlagIndex: nat
    var score: nat
    var streak: nat
    var bestStreak: nat
    var lives: int
    var flagsAnswered: nat
    var selectedOption: Option<string>
    var isRevealed: bool
    var gameOver: bool

    /** The ten fields as one session value. */
    function State(): Session
      reads this
    {
      GameSession.Session(gameStarted, currentFlagIndex, score, streak, bestStreak, lives,
                          flagsAnswered, selectedOption, isRevealed, gameOver)
    }

    ghost predicate Valid()
      reads this
    {
      GameSession.Valid(State())
    }

    /** The `useState` initial values. */
    constructor ()
      ensures State() == GameSession.Initial() && Valid()
    {
      gameStarted := false;
      currentFlagIndex := 0;
      score := 0;
      streak := 0;
      bestStreak := 0;
      lives := 3;
      flagsAnswered := 0;
      selectedOption := None;
      isRevealed := false;
      gameOver := false;
    }

    method StartGame()
      requires Valid()
      modifies this
      ensures Valid()
      ensures State() == GameSession.StartGame(old(State()))
    {
      gameStarted := true;
    }

    /**
     Scores the clicked option. Like the closures of the component, every
     update is computed from the values the handler started with.
     */
    method HandleOptionSelect(option: string)
      requires Valid()
      modifies this
      ensures State() == GameSession.SelectOption(old(State()), option)
      ensures GameSession.Consistent(State())
    {
      if isRevealed || gameOver {
        return;
      }
      var livesBefore, streakBefore := lives, streak;
      selectedOption := Some(option);
      isRevealed := true;
      var isCorrect := option == Catalog[currentFlagIndex].country;
      if isCorrect {
        score := score + 10 * (streakBefore + 1);
        streak := streakBefore + 1;
        flagsAnswered := flagsAnswered + 1;
      } else {
        streak := 0;
        lives := livesBefore - 1;
        flagsAnswered := flagsAnswered + 1;
        if livesBefore <= 1 {
          gameOver := true;
        }
      }
      GameSession.SelectOptionKeepsConsistent(old(State()), option);
    }

    /** The effect that runs after `streak` changes: bestStreak becomes max(bestStreak, streak). */
    method TrackBestStreak()
      requires GameSession.Consistent(State())
      modifies this
      ensures State() == GameSession.TrackBestStreak(old(State()))
      ensures Valid()
    {
      if streak > bestStreak {
        bestStreak := streak;
      }
      GameSession.TrackBestStreakRestoresValid(old(State()));
    }

    /** Moves to the round `randomIndex`, which the caller draws uniformly from the catalog. */
    method NextFlag(randomIndex: int)
      requires Valid() && 0 <= randomIndex < |Catalog|
      modifies this
      ensures Valid()
      ensures State() == GameSession.NextFlag(old(State()), randomIndex)
    {
      currentFlagIndex := randomIndex;
      selectedOption := None;
      isRevealed := false;
    }

    method ResetGame()
      modifies this
      ensures Valid()
      ensures State() == GameSession.Initial()
    {
      gameStarted := false;
      currentFlagIndex := 0;
      score := 0;
      streak := 0;
      bestStreak := 0;
      lives := 3;
      flagsAnswered := 0;
      selectedOption := None;
      isRevealed := false;
      gameOver := false;
    }
  }

  // ---------------------------------------------------------------------------
  // What the component renders, and which events it offers
  // ---------------------------------------------------------------------------

  datatype Screen = Welcome | GameOverScreen | Round

  /** Welcome screen until started, then the game over screen once the game has ended, else the round. */
  function ScreenOf(s: Session): (screen: Screen)
    ensures screen == Welcome <==> !s.gameStarted
    ensures screen == GameOverScreen <==> s.gameStarted && s.gameOver
    ensures screen == Round <==> s.gameStarted && !s.gameOver
  {
    if !s.gameStarted then Welcome
    else if s.gameOver then GameOverScreen
    else Round
  }

  /** The answer buttons of the current round, one per option, in catalog order. */
  function OptionButtons(s: Session): (buttons: seq<QuizOption.OptionButton>)
    requires s.currentFlagIndex < |Catalog|
    ensures |buttons| == |GameSession.CurrentFlag(s).options|
    ensures forall k :: 0 <= k < |buttons| ==>
              buttons[k].text == GameSession.CurrentFlag(s).options[k] && buttons[k].disabled == s.isRevealed
  {
    var flag := GameSession.CurrentFlag(s);
    seq(|flag.options|, k requires 0 <= k < |flag.options| =>
      QuizOption.Render(flag.options[k], flag.options[k] == flag.country,
                        s.selectedOption == Some(flag.options[k]), s.isRevealed))
  }

  /**
   Whether the rendered screen lets the user fire `e`: the start button on the
   welcome screen, a click on an enabled answer button of the round, the
   next-flag button shown only once revealed, and the play-again button on the
   game over screen.
   */
  predicate Offered(s: Session, e: GameSession.Event)
    requires s.currentFlagIndex < |Catalog|
  {
    match e
    case Start => ScreenOf(s) == Welcome
    case Choose(option) =>
      ScreenOf(s) == Round &&
      exists k :: 0 <= k < |OptionButtons(s)| && OptionButtons(s)[k].text == option && !OptionButtons(s)[k].disabled
    case Next(i) => ScreenOf(s) == Round && s.isRevealed && 0 <= i < |Catalog|
    case Reset => ScreenOf(s) == GameOverScreen
  }

  /** The sessions the user can reach by clicking what is shown. */
  predicate Reachable(s: Session) {
    && GameSession.Valid(s)
    && (!s.gameStarted ==> s == GameSession.Initial())
    && (s.gameOver ==> s.isRevealed)
    && (s.selectedOption.Some? ==> s.selectedOption.value in GameSession.CurrentFlag(s).options)
  }

  /**
   Through the screens, an answer is only ever given while the round is not yet
   revealed and the game not over, and every offered event keeps the session reachable.
   */
  lemma OfferedStepKeepsReachable(s: Session, e: GameSession.Event)
    requires Reachable(s) && Offered(s, e)
    ensures e.Choose? ==> !s.isRevealed && !s.gameOver && e.option in GameSession.CurrentFlag(s).options
    ensures e.Next? ==> s.isRevealed && !s.gameOver
    ensures GameSession.IndexInRange(e) && Reachable(GameSession.Step(s, e))
  {
    GameSession.StepKeepsValid(s, e);
    if e.Choose? {
      var k :| 0 <= k < |OptionButtons(s)| && OptionButtons(s)[k].text == e.option && !OptionButtons(s)[k].disabled;
      assert GameSession.CurrentFlag(s).options[k] == e.option;
    }
  }

  /** A sequence of events each offered by the screen it is fired on. */
  predicate OfferedPlay(s: Session, events: seq<GameSession.Event>)
    requires Reachable(s)
    decreases |events|
  {
    events == [] ||
    (Offered(s, events[0]) &&
     (OfferedStepKeepsReachable(s, events[0]);
      OfferedPlay(GameSession.Step(s, events[0]), events[1..])))
  }

  /** Clicking through the screens from the start of a session never leaves the reachable sessions. */
  lemma {:induction false} OfferedPlayKeepsReachable(s: Session, events: seq<GameSession.Event>)
    requires Reachable(s) && OfferedPlay(s, events)
    ensures GameSession.IndicesInRange(events)
    ensures Reachable(GameSession.Play(s, events))
    decreases |events|
  {
    if events != [] {
      OfferedStepKeepsReachable(s, events[0]);
      var next := GameSession.Step(s, events[0]);
      OfferedPlayKeepsReachable(next, events[1..]);
      GameSession.PlayCons(s, events[0], events[1..]);
      assert events == [events[0]] + events[1..];
    }
  }

  /**
   The answer buttons: enabled and plain until the reveal; afterwards all
   disabled, exactly one marked a success, the one showing the country of the
   flag, and one marked destructive exactly when the chosen option was wrong,
   the one showing that option.
   */
  lemma RevealedButtons(s: Session)
    requires Reachable(s)
    ensures var buttons := OptionButtons(s);
      && |buttons| == OptionsPerFlag
      && (forall k :: 0 <= k < |buttons| ==> buttons[k].disabled == s.isRevealed)
      && (!s.isRevealed ==> forall k :: 0 <= k < |buttons| ==> buttons[k].variant == QuizOption.Outline)
    ensures var buttons := OptionButtons(s);
      s.isRevealed ==>
        && (exists k :: 0 <= k < |buttons| && buttons[k].variant == QuizOption.Success)
        && (forall j, k ::
              (0 <= j < |buttons| && 0 <= k < |buttons| &&
               buttons[j].variant == QuizOption.Success && buttons[k].variant == QuizOption.Success)
              ==> j == k)
        && ((exists k :: 0 <= k < |buttons| && buttons[k].variant == QuizOption.Destructive) <==>
              !GameSession.IsCorrect(s, s.selectedOption.value))
    ensures var buttons := OptionButtons(s);
      forall k :: 0 <= k < |buttons| ==>
        && (buttons[k].variant == QuizOption.Success <==>
              s.isRevealed && buttons[k].text == GameSession.CurrentFlag(s).country)
        && (buttons[k].variant == QuizOption.Destructive <==>
              s.isRevealed && s.selectedOption == Some(buttons[k].text) &&
              buttons[k].text != GameSession.CurrentFlag(s).country)
  {
    CatalogWellFormed();
    var flag := GameSession.CurrentFlag(s);
    var buttons := OptionButtons(s);
    assert WellFormed(flag);
    if s.isRevealed {
      var c :| 0 <= c < |flag.options| && flag.options[c] == flag.country;
      assert buttons[c].variant == QuizOption.Success;
      var chosen := s.selectedOption.value;
      if !GameSession.IsCorrect(s, chosen) {
        var k :| 0 <= k < |flag.options| && flag.options[k] == chosen;
        assert buttons[k].variant == QuizOption.Destructive;
      }
    }
  }

  // ---------------------------------------------------------------------------
  // The leaderboard on the game over screen
  // ---------------------------------------------------------------------------

  /**
   The board after the game over screen mounts it: the session's score, its
   best streak (not the current one) and its answer count, with a callback supplied.
   */
  function RecordFinishedGame(board: seq<Scoreboard.ScoreEntry>, s: Session, date: string): seq<Scoreboard.ScoreEntry> {
    Scoreboard.RecordScore(board, Some(s.score), Some(s.bestStreak), Some(s.flagsAnswered), true, date)
  }

  /**
   A finished game is always recorded, with its best streak in the streak
   column, and the entry is plausible: at least three answers (three lives
   lost), a streak no longer than the answers, and at least 5n(n+1) points for
   a streak of n.
   */
  lemma FinishedGameEntry(board: seq<Scoreboard.ScoreEntry>, s: Session, date: string)
    requires Reachable(s) && ScreenOf(s) == GameOverScreen
    ensures var e := Scoreboard.ScoreEntry(s.score, date, s.bestStreak, s.flagsAnswered);
      && RecordFinishedGame(board, s, date) == Scoreboard.AddScore(board, e)
      && e.flagsAnswered >= GameSession.InitialLives
      && 0 <= e.streak <= e.flagsAnswered
      && e.score >= 5 * e.streak * (e.streak + 1)
  {
    GameSession.StreakPointsClosedForm(s.bestStreak);
  }
}
