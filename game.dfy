/**
 * The game window: the current player's name, the greeting of the main
 * menu, the high-score file, which screen is shown, and the puzzle panel
 * it drives.  Dialog answers (the name typed, the difficulty chosen,
 * whether the image could be read) and the shuffle are parameters.
 */
module Game {
  import opened Optional
  import opened JavaText
  import opened PuzzleEngine
  import opened PuzzlePanels
  import opened HighScores

  /** The name used when none is entered. */
  const DefaultPlayerName: string := "Guest"

  /** The greeting shown to the default player. */
  const Title: string := "Puzzle Prestige"

  /** The start of the greeting shown to a named player. */
  const WelcomeBack: string := "Bon retour, "

  // ---------------------------------------------------------------------
  // The small decisions of the dialogs

  /** The grid size for the difficulty chosen in the dialog: the first
      option is 3x3, the third 5x5, and anything else (the second option,
      or a dialog closed without a choice) 4x4. */
  function GridSizeFor(choice: int): (n: int)
    ensures 3 <= n <= 5
    ensures n == 3 <==> choice == 0
    ensures n == 5 <==> choice == 2
  {
    if choice == 0 then 3 else if choice == 2 then 5 else 4
  }

  /** The player name kept after the name dialog: the input trimmed, or
      the default name when the dialog was cancelled or left blank. */
  function PlayerName(input: Option<string>): (name: string)
    ensures name != [] && !IsBlank(name[0]) && !IsBlank(name[|name| - 1])
    ensures input.Some? && Trim(input.value) != [] ==> name == Trim(input.value)
    ensures input.None? || Trim(input.value) == [] ==> name == DefaultPlayerName
  {
    if input.Some? && Trim(input.value) != [] then Trim(input.value) else DefaultPlayerName
  }

  /** Entering again the name that was kept keeps it unchanged. */
  lemma PlayerNameIdempotent(input: Option<string>)
    ensures PlayerName(Some(PlayerName(input))) == PlayerName(input)
  {
  }

  /** The main menu's greeting for a player: the title for the default
      player; for anyone else a greeting that is not the title and from
      which the player's name reads back after the welcome words. */
  function Greeting(name: string): (g: string)
    ensures g == Title <==> name == DefaultPlayerName
    ensures g != Title ==> |WelcomeBack| <= |g| && g[|WelcomeBack|..] == name
  {
    if name == DefaultPlayerName then Title
    else
      WelcomeIsNotTitle(name);
      WelcomeBack + name
  }

  /** The greeting tells which player is playing: different names get
      different greetings. */
  lemma GreetingInjective(a: string, b: string)
    requires Greeting(a) == Greeting(b)
    ensures a == b
  {
    if a != DefaultPlayerName && b != DefaultPlayerName {
      assert a == (WelcomeBack + a)[|WelcomeBack|..];
      assert b == (WelcomeBack + b)[|WelcomeBack|..];
    } else if a != DefaultPlayerName {
      WelcomeIsNotTitle(a);
    } else if b != DefaultPlayerName {
      WelcomeIsNotTitle(b);
    }
  }

  lemma WelcomeIsNotTitle(name: string)
    ensures WelcomeBack + name != Title
  {
    assert (WelcomeBack + name)[0] != Title[0];
  }

  // ---------------------------------------------------------------------
  // Winning and the score file

  /** The score a won game saves always fits the record format: after
      saving it, the file loads back with that entry added at the end
      when the score is positive and unchanged otherwise. */
  lemma SavedWinLoadsBack(file: seq<string>, name: string, p: Puzzle)
    requires ',' !in name && p.timeElapsed >= 0 && p.moveCount >= 0
    ensures var score := Score(p.timeElapsed, p.moveCount);
      ParseAll(AppendScore(file, name, score))
        == ParseAll(file) + (if score > 0 then [ScoreEntry(name, score)] else [])
  {
    LoadAfterSave(file, name, Score(p.timeElapsed, p.moveCount));
  }

  /** A player name holding a comma writes a record with three fields or
      more, which the loader skips: that player's scores never show. */
  lemma CommaInNameLosesScore(name: string, score: int)
    requires ',' in name
    ensures ParseLine(Record(name, score)) == None
  {
    SplitCommaThenField(name, IntToString(score));
  }

  // ---------------------------------------------------------------------
  // The window

  /** The screen the card layout shows. */
  datatype Screen = MainMenu | Playing | HighScoreList(board: ScoreBoard)

  class PuzzleGame {
    var currentPlayerName: string
    var greeting: string
    var scoreFile: seq<string>
    var screen: Screen
    const panel: PuzzlePanel

    /** The window as it opens: the default player, greeted on the main
        menu, with the score file as found and a panel with no game. */
    constructor (file: seq<string>)
      ensures currentPlayerName == DefaultPlayerName && scoreFile == file
      ensures greeting == Title && screen == MainMenu
      ensures fresh(panel) && panel.gridSize == 0
    {
      currentPlayerName := DefaultPlayerName;
      scoreFile := file;
      panel := new PuzzlePanel();
      greeting := Greeting(DefaultPlayerName);
      screen := MainMenu;
    }

    /** Back to the main menu, greeting the current player. */
    method ShowMainMenu()
      modifies this`greeting, this`screen
      ensures greeting == Greeting(currentPlayerName) && screen == MainMenu
    {
      greeting := Greeting(currentPlayerName);
      screen := MainMenu;
    }

    /** The name dialog; input is None when it is cancelled. */
    method PromptForPlayerName(input: Option<string>)
      modifies this`currentPlayerName
      ensures currentPlayerName == PlayerName(input)
    {
      currentPlayerName := PlayerName(input);
    }

    /** The difficulty dialog followed by the start of a game of that
        size from the given shuffle. */
    method ChooseDifficulty(choice: int, perm: seq<int>)
      requires IsShuffle(perm, GridSizeFor(choice) * GridSizeFor(choice))
      modifies panel, this`screen
      ensures panel.Valid() && fresh(panel.grid)
      ensures panel.State() == Start(GridSizeFor(choice), perm)
      ensures screen == Playing
    {
      panel.StartGame(GridSizeFor(choice), perm);
      screen := Playing;
    }

    /** A new game: the image dialog, then the name and difficulty
        dialogs.  When no readable image is chosen nothing changes. */
    method PrepareGame(imageRead: bool, nameInput: Option<string>, choice: int, perm: seq<int>)
      requires IsShuffle(perm, GridSizeFor(choice) * GridSizeFor(choice))
      modifies panel, this`currentPlayerName, this`screen
      ensures !imageRead ==> currentPlayerName == old(currentPlayerName) && screen == old(screen)
      ensures !imageRead ==> unchanged(panel)
      ensures imageRead ==> currentPlayerName == PlayerName(nameInput) && screen == Playing
      ensures imageRead ==> panel.Valid() && fresh(panel.grid) && panel.State() == Start(GridSizeFor(choice), perm)
    {
      if imageRead {
        PromptForPlayerName(nameInput);
        ChooseDifficulty(choice, perm);
      }
    }

    /** Appends a record for a positive score to the score file. */
    method SaveHighScore(name: string, score: int)
      modifies this`scoreFile
      ensures scoreFile == AppendScore(old(scoreFile), name, score)
    {
      if score <= 0 {
        return;
      }
      scoreFile := scoreFile + [Record(name, score)];
    }

    /** A click on a tile of the running game.  A click that solves the
        puzzle saves the score under the current player's name and goes
        back to the main menu. */
    method TileClicked(row: int, col: int) returns (outcome: ClickOutcome)
      requires panel.Valid()
      requires 0 <= row < panel.gridSize && 0 <= col < panel.gridSize
      modifies panel, panel.grid, this`scoreFile, this`greeting, this`screen
      ensures panel.Valid() && panel.grid == old(panel.grid)
      ensures panel.State() == PuzzleEngine.Click(old(panel.State()), row, col)
      ensures outcome.Solved? <==> Adjacent(row, col, old(panel.emptyRow), old(panel.emptyCol)) && Won(panel.State())
      ensures outcome.Solved? ==> outcome.finalScore == Score(panel.timeElapsed, panel.moveCount)
      ensures outcome.Solved? ==> scoreFile == AppendScore(old(scoreFile), currentPlayerName, outcome.finalScore)
      ensures outcome.Solved? ==> greeting == Greeting(currentPlayerName) && screen == MainMenu
      ensures !outcome.Solved? ==> scoreFile == old(scoreFile) && greeting == old(greeting) && screen == old(screen)
    {
      outcome := panel.Click(row, col);
      if outcome.Solved? {
        SaveHighScore(currentPlayerName, outcome.finalScore);
        ShowMainMenu();
      }
    }

    /** The high-score screen, loaded from the score file. */
    method ShowHighScores()
      modifies this`screen
      ensures screen == HighScoreList(Board(SortByScore(ParseAll(scoreFile))))
    {
      var board := LoadHighScores(scoreFile);
      screen := HighScoreList(board);
    }
  }
}
