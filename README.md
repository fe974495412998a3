# Puzzle Prestige — a verified model of the sliding-tile engine

Puzzle Prestige (`PuzzleGame.java`) is a Swing sliding-tile puzzle. The
player picks an image, a name and a difficulty (3x3, 4x4 or 5x5). The image
is cut into N×N tiles, shuffled onto a grid with the bottom-right cell left
empty, and the player clicks the tiles next to the empty cell to slide them.
A clock counts seconds and a counter counts moves. When every tile is back
in place, the clock stops. A score of `max(0, 10000 - 10·seconds - 5·moves)`
is appended to `highscores.txt` as `name,score` when it is positive. The
high-score screen shows the ten best entries.

This project models that core in Dafny:

- `engine.dfy` (module `PuzzleEngine`) is the pure engine. A `Puzzle` value
  holds the grid read row by row (cell (r, c) is index r·N + c, the
  `i / gridSize`, `i % gridSize` of the source), the empty slot, the two
  counters and whether the clock runs. It gives the set-up, the click rule,
  the win test, the tick and the score as functions, with the properties
  they keep.
- `panel.dfy` (module `PuzzlePanels`) is the in-place engine of the panel.
  Class `PuzzlePanel` holds a `array2<Cell>` for the `JButton[][]` grid,
  plus the fields the source updates. `StartGame`, `Tick`,
  `CheckWinCondition` and `Click` are proved to move `State()` exactly as
  the pure engine says (`Start`, `Tick`, the win test and `Click`).
  `IsWin` changes nothing and answers exactly the engine's win test.
  `StartTimer` resets the counters and starts the clock, leaving the rest
  of `State()` as it was. `SetupGrid` is proved to lay out the engine's
  grid. A freshly constructed panel has no grid yet (as the
  source's button array before the first game) and is not valid until a
  game starts.
- `javatext.dfy` (module `JavaText`) models the Java string operations the
  score file relies on: `String.trim`, `String.split(",")`,
  `Integer.parseInt` and the decimal form of an `int`.
- `highscores.dfy` (module `HighScores`) covers the score file as a
  sequence of lines: writing a record, parsing lines, the stable
  best-first sort and the ten-row cut.
- `game.dfy` (module `Game`) models the window that ties them together:
  the name and difficulty dialogs, the greeting, saving a won game's
  score, and the high-score screen.

The model follows the code as written:

- The empty cell always starts at (N−1, N−1).
- The set-up shuffles all N² ids but places only the first N²−1 of them. So
  when the last shuffled id is not N²−1, some tile below N²−1 is missing
  and no sequence of clicks wins the game (`PuzzleEngine.StartUnwinnable`).
- The win test runs only after an accepted move. Nothing blocks moves after
  a win.
- Because `split` drops trailing empty strings, `Bob,9500,` is accepted and
  `Bob,` is skipped. A player name containing any comma writes a record of
  three fields or more, which is never read back.
- The solved arrangement is reachable: the identity shuffle starts won, a
  move breaks the win and the move back restores it and stops the clock
  (`PuzzleEngine.MoveAndBack`).

## Model

| member | source | states |
|---|---|---|
| PuzzleEngine.StartLayout | PuzzleGame.java:451-467 | after set-up from any shuffle of 0..N²−1: the empty slot is (N−1, N−1) and is the only empty cell; cell i < N²−1 holds the i-th shuffled id; the tiles are the ids 0..N²−1 each once, less the last shuffled id |
| PuzzleEngine.Layout | PuzzleGame.java:451-467 | the set-up grid has N² cells and its only empty cell is the last one (bottom-right); the tiles it holds are given by StartLayout |
| PuzzleEngine.Start | PuzzleGame.java:398-409 | the state of a new game (layout, empty corner, counters reset as at 494-495, clock running) is already won exactly when the shuffle leaves every id but the last in its own place |
| PuzzleEngine.Adjacent | PuzzleGame.java:546 | the click test holds iff the clicked cell is at taxicab distance exactly 1 from the empty slot |
| PuzzleEngine.Won | PuzzleGame.java:519-527 | the win test, cell i holding tile i for every i below N²−1; its properties are WonEmptyCorner, NotWonWithout, Start's won-iff-identity and PuzzlePanel.IsWin's scan |
| PuzzleEngine.Slide | PuzzleGame.java:547-560 | the swap of an accepted move keeps a well-formed state; its effect on every cell is ClickAccepted, and its invariants SlideKeepsBag and SlideKeepsOneEmpty |
| PuzzleEngine.Click | PuzzleGame.java:545-563 | a click that is not next to the empty slot changes nothing; the move counter goes up by one exactly when the click is next to it; a click never restarts the clock |
| PuzzleEngine.ClickAccepted | PuzzleGame.java:547-560 | an accepted click puts the clicked cell's content in the old empty slot, empties the clicked cell, makes it the empty slot, adds one move, leaves every other cell and the time unchanged, and stops the clock exactly when the grid is then won |
| PuzzleEngine.SlideKeepsBag | PuzzleGame.java:550-557 | the swap keeps the multiset of tile ids |
| PuzzleEngine.SlideKeepsOneEmpty | PuzzleGame.java:550-560 | after an accepted move the clicked cell, now the tracked empty slot, is the only empty cell |
| PuzzleEngine.ClickPreservesInv | PuzzleGame.java:546-560 | every click keeps exactly one empty cell at (emptyRow, emptyCol) and keeps the multiset of tile ids |
| PuzzleEngine.ClickUndo | PuzzleGame.java:546-560 | clicking the old empty slot right after a move restores the grid and the empty slot, with two moves counted |
| PuzzleEngine.Tick | PuzzleGame.java:498-499 | a tick of the running clock adds one second and changes nothing else |
| PuzzleEngine.WonEmptyCorner | PuzzleGame.java:520-527 | under the one-empty invariant, a won grid has its empty slot at (N−1, N−1) |
| PuzzleEngine.RunPreservesInv | PuzzleGame.java:545-563 | any sequence of clicks keeps the one-empty invariant and the multiset of tile ids |
| PuzzleEngine.FirstMoveBreaksWin | PuzzleGame.java:545-563 | the identity shuffle starts won, and sliding the tile above the empty corner breaks the win with one move counted and the clock running |
| PuzzleEngine.MoveAndBack | PuzzleGame.java:519-563 | from the identity start, that move and the click back restore the won grid with two moves counted, and the win stops the clock |
| PuzzleEngine.NotWonWithout | PuzzleGame.java:520-527 | a grid missing some tile id below N²−1 fails the win test |
| PuzzleEngine.StartUnwinnable | PuzzleGame.java:451-467 | when the dropped shuffled id is not N²−1, no sequence of clicks from the initial grid ever passes the win test |
| PuzzleEngine.Score | PuzzleGame.java:533 | the score is never negative, is positive iff 10·time + 5·moves < 10000, and is at most 10000 for non-negative counters |
| PuzzleEngine.ScoreMonotone | PuzzleGame.java:533 | more time or more moves never raise the score |
| PuzzleEngine.ScoreExamples | PuzzleGame.java:533 | the score is 10000 at (0, 0) and 0 at (2000, 50) |
| PuzzlePanels.PuzzlePanel.constructor | PuzzleGame.java:347-353 | a fresh panel has no grid, both counters at zero and the clock off |
| PuzzlePanels.PuzzlePanel.StartGame | PuzzleGame.java:398-409 | starting a game of size N from a shuffle gives exactly the engine's initial state: the laid-out grid, counters at zero, clock running |
| PuzzlePanels.PuzzlePanel.SetupGrid | PuzzleGame.java:445-478 | the set-up loop fills a fresh N×N grid with the engine's layout and puts the empty slot at (N−1, N−1), leaving the counters and the clock alone |
| PuzzlePanels.PuzzlePanel.StartTimer | PuzzleGame.java:493-503 | both counters are reset to zero and the clock runs; the grid and the empty slot are unchanged |
| PuzzlePanels.PuzzlePanel.Tick | PuzzleGame.java:498-499 | a tick moves the panel's state as the engine's tick does |
| PuzzlePanels.PuzzlePanel.IsWin | PuzzleGame.java:519-528 | the scan with early exit answers exactly the engine's win test |
| PuzzlePanels.PuzzlePanel.CheckWinCondition | PuzzleGame.java:519-533 | on a win the clock stops and the score of the current counters is reported; otherwise nothing changes |
| PuzzlePanels.PuzzlePanel.Click | PuzzleGame.java:545-563 | the click moves the panel's state exactly as the engine's click; the outcome is Ignored iff the click is not next to the empty slot, and Solved iff it is and the grid is then won, carrying that score |
| JavaText.TrimStart | PuzzleGame.java:649 | leading blanks (chars up to U+0020) are removed and no more |
| JavaText.TrimEnd | PuzzleGame.java:649 | trailing blanks are removed and no more |
| JavaText.Trim | PuzzleGame.java:649 | the trimmed string is no longer than the input and has no blank at either end |
| JavaText.TrimUnchanged | PuzzleGame.java:649 | a string with no blank at either end is its own trim |
| JavaText.TrimIdempotent | PuzzleGame.java:649 | trimming twice is trimming once |
| JavaText.TrimAround | PuzzleGame.java:649 | blanks added around a string with no blank at its ends are trimmed away |
| JavaText.Pieces | PuzzleGame.java:646 | the comma-separated pieces are comma-free and join back with commas to the input |
| JavaText.DropTrailingEmpty | PuzzleGame.java:646 | the trailing empty pieces are removed, and only those |
| JavaText.Split | PuzzleGame.java:646 | every part of the split is comma-free |
| JavaText.SplitTwoFields | PuzzleGame.java:646 | two comma-free fields, the second non-empty, joined by a comma split back into exactly those two fields |
| JavaText.ParseInt | PuzzleGame.java:649 | an accepted value is a 32-bit int |
| JavaText.IntToString | PuzzleGame.java:218 | the decimal form of an int is non-empty, comma-free and has no blank at either end |
| JavaText.ParseIntToString | PuzzleGame.java:218 | parsing the decimal form of a 32-bit int gives the int back |
| HighScores.Record | PuzzleGame.java:218 | a record with a comma-free name splits into exactly the name and the score's decimal text; ParseRecord reads it back |
| HighScores.AppendScore | PuzzleGame.java:213-218 | saving only appends: the old lines stay as they were, and one line is added exactly when the score is positive |
| HighScores.ParseLine | PuzzleGame.java:646-653 | an accepted line gives a comma-free name and a 32-bit score |
| HighScores.ParseRecord | PuzzleGame.java:218 | the record written for a comma-free name and a 32-bit score is read back as that name and score |
| HighScores.ParseTwoFields | PuzzleGame.java:646-653 | a line of two comma-free fields is accepted exactly when its trimmed second field parses, with that value |
| HighScores.TrailingCommaAccepted | PuzzleGame.java:646-647 | a record followed by a comma is still read back |
| HighScores.MissingScoreSkipped | PuzzleGame.java:646-647 | a name followed by a lone comma is skipped |
| HighScores.BlanksAroundScoreTrimmed | PuzzleGame.java:649 | blanks around the score field do not stop the record from being read |
| HighScores.ThreeFieldsSkipped | PuzzleGame.java:646-647 | a line with three fields is skipped |
| HighScores.NonNumericScoreSkipped | PuzzleGame.java:648-652 | a line whose trimmed score field is not an int is skipped |
| HighScores.ParseAll | PuzzleGame.java:645-654 | the loaded list has no more entries than the file has lines |
| HighScores.ParseAllAppend | PuzzleGame.java:645-654 | each line is read independently: the entries of a file are those of its first part followed by those of the rest |
| HighScores.LoadAfterSave | PuzzleGame.java:213-218 | saving then loading adds exactly the saved entry at the end when the score is positive, and nothing otherwise |
| HighScores.ReadScores | PuzzleGame.java:645-654 | the read loop collects exactly the parsed entries, in file order |
| HighScores.Insert | PuzzleGame.java:660 | inserting adds exactly one entry |
| HighScores.InsertPermutes | PuzzleGame.java:660 | inserting adds the entry and loses nothing |
| HighScores.InsertSorted | PuzzleGame.java:660 | inserting into a list sorted best-first keeps it sorted |
| HighScores.InsertStable | PuzzleGame.java:660 | inserting keeps the order of each score's entries and puts the new entry after those with the same score |
| HighScores.PrependStable | PuzzleGame.java:660 | an entry placed before lower scores comes after every entry of its own score |
| HighScores.SortIsSorted | PuzzleGame.java:660 | the sort puts the best scores first |
| HighScores.SortPermutes | PuzzleGame.java:660 | the sort loses and adds no entry |
| HighScores.SortIsStable | PuzzleGame.java:660 | the sort keeps the file order of the entries of any one score |
| HighScores.SortByScore | PuzzleGame.java:660 | the sort keeps the length |
| HighScores.SortByScoreCorrect | PuzzleGame.java:660 | the sort is best-first, is a permutation, and is stable: for every score, its entries keep their file order |
| HighScores.TopRows | PuzzleGame.java:666 | the first rows of the sorted list are sorted and come from it, and no entry left out scores higher than one shown |
| HighScores.BoardShowsBest | PuzzleGame.java:660-670 | the placeholder shows exactly when no entry was loaded; otherwise min(10, entries) rows, best first, all loaded, and no entry left out beats one shown |
| HighScores.Board | PuzzleGame.java:666-670 | the placeholder shows exactly when the list is empty; otherwise the rows are exactly the first min(10, n) entries of the list |
| HighScores.LoadHighScores | PuzzleGame.java:638-670 | the screen shows the first ten of the stably sorted parsed file, or the placeholder when there is none |
| HighScores.LoadTwoSaves | PuzzleGame.java:213-218 | two saves in turn load back as the two entries in file order |
| HighScores.TwoRecordsScenario | PuzzleGame.java:660-670 | after two wins, the second with the higher score, the screen lists the second player first |
| Game.GridSizeFor | PuzzleGame.java:179-184 | the grid size is between 3 and 5: 3 iff the first option was chosen, 5 iff the third |
| Game.PlayerName | PuzzleGame.java:156-163 | the kept name is the trimmed input when that is not blank, and "Guest" otherwise; it never has a blank at either end |
| Game.PlayerNameIdempotent | PuzzleGame.java:156-163 | entering the kept name again keeps it unchanged |
| Game.Greeting | PuzzleGame.java:336 | the greeting is the title exactly for the default player; any other greeting reads back the player's name after the welcome words |
| Game.GreetingInjective | PuzzleGame.java:336 | different names get different greetings |
| Game.SavedWinLoadsBack | PuzzleGame.java:533-534 | a won game's score, saved under a comma-free name, is read back from the file exactly when it is positive |
| Game.CommaInNameLosesScore | PuzzleGame.java:218 | a record for a name containing any comma is skipped when the file is loaded |
| Game.PuzzleGame.constructor | PuzzleGame.java:67-96 | the window opens with the default player, greeted on the main menu |
| Game.PuzzleGame.ShowMainMenu | PuzzleGame.java:105-108 | the main menu is shown with the current player's greeting |
| Game.PuzzleGame.PromptForPlayerName | PuzzleGame.java:155-164 | the current player becomes the sanitised name of the dialog's answer |
| Game.PuzzleGame.ChooseDifficulty | PuzzleGame.java:171-186 | the chosen difficulty starts a game of that size from the shuffle, in the engine's initial state |
| Game.PuzzleGame.PrepareGame | PuzzleGame.java:114-149 | without a readable image nothing changes; otherwise the name is taken and the game starts |
| Game.PuzzleGame.SaveHighScore | PuzzleGame.java:211-229 | the file grows by the record `name,score` exactly when the score is positive |
| Game.PuzzleGame.TileClicked | PuzzleGame.java:529-537 | the click moves the panel as the engine does; a winning click saves its score under the current player's name and returns to the main menu; any other click leaves the file, the greeting and the screen alone |
| Game.PuzzleGame.ShowHighScores | PuzzleGame.java:299-301 | the high-score screen shows the board loaded from the current score file |

## Left out

- Swing and AWT: window and panel construction, layouts, painting, fonts, colours, the side panel and the image preview. Only the state they display is modelled.
- The three animation timers and their floating-point colour arithmetic, which are cosmetic.
- Image reading and tile slicing (`ImageIO.read`, `getSubimage`, `ImageIcon`). A tile is its id. `PrepareGame` takes "was the image read" as a flag. The final icon set on a win is not modelled.
- File I/O. The score file is a sequence of lines, and a missing file is the empty sequence. Write errors, read errors and the messages they print are not modelled. A line break inside a name, which would split the record over two lines, is not modelled. Each line is taken to end with a line break: a file whose last line lacks one (only an outside edit makes such a file) would get the next record glued onto that line, and both records would then be skipped.
- The dialogs' text, message boxes and the congratulation dialog. Their answers (name, difficulty choice) are parameters.
- `Collections.shuffle`: the shuffle is a parameter, required to be an arrangement of 0..N²−1.
- The Swing `Timer` scheduling: `Tick` is a method the caller invokes while the clock runs. Stopping and replacing the old timer in `startTimer` is reduced to a running flag.
- `synchronized`, `System.exit` and the quit buttons' navigation beyond `ShowMainMenu`.
- `String.format` column padding of the score table: the board is the list of rows shown.
- `List.sort` is a library call and is modelled by its specification (a stable sort best-first, `SortByScore`), not by an in-place algorithm.
- Whether a shuffle is solvable by parity is not modelled; only the missing-tile defect of the set-up is proved.
- HighScores.LoadAfterSave: the file is a sequence of complete lines, so the save-then-load round trip is stated only for a file whose last line ends with a line break, as every file the program writes does.
- PuzzleEngine.Score: the counters are unbounded integers, so the 32-bit arithmetic of line 533 is not modelled. There `timeElapsed * 10` wraps once `timeElapsed` exceeds 214 748 364, and `moveCount * 5` wraps once `moveCount` exceeds 429 496 729; past those points `Math.max` can return a large positive score (`timeElapsed` = 429 496 730 with no moves gives 9996).
- JavaText.ParseInt: accepts ASCII digits only, while `Integer.parseInt` also accepts other Unicode decimal digits.
