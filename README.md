# TrivialPursuit game logic in Dafny

This project models the game logic of the TrivialPursuit pygame program. It covers five source files:

- **Tiles** (`tiles.dfy`): a board square. It has a kind (one per subclass of `Tile`: People, Events, Places, Holidays, Roll Again, Hub), a headquarters flag, and an `active` flag switched by `activate`/`deactivate`. `clicked` reports a hit only on an active tile.
- **Player** (`player.dfy`): a player number, a map of the four categories to "answered" flags (all false at the start), and a board location that `set_location` replaces.
- **Dice** (`dice.dfy`): a two-state machine on `roll`. A click is accepted only while the die shows 0. An accepted click stores and returns a value in 1..6; any other click returns 0. `reset` re-arms the die.
- **Questions** (`questions.dfy`): the question deck.
  - Loading skips the header row and groups the six-field records by category. Each question gets four answers, the first one marked correct.
  - Each category's list is shuffled and gets a cursor at 0.
  - `ask` takes the question under the cursor and advances the cursor, wrapping at the end. It shuffles that question's answers, finds the 1-based number of the correct answer and compares it with the player's choice.
- **GameBoard** (`board.dfy`): the fixed 9×9 table of tiles. Holes are the squares off the three rows and three columns 0, 4 and 8. There is a hub at the centre and four headquarters at the corners.
  - The constructor places every player on the hub square `(len(board)/2, len(board[hub_row])/2)` and picks a starting player.
  - `execute` walks the whole grid. For every tile that reports a click, it sets the debug text, moves the current player there and passes the turn to `(player + 1) % len(players)`.
- **Turn order** (`round_robin.dfy`): `execute` steps the turn and `ask` steps its cursor the same way, one place at a time with wrap-around. This module models that step and proves it visits every index exactly once per cycle.

Randomness and the user interface become inputs to the model:

- `random.randint` for the die and the starting player;
- the swap choices of `random.shuffle`;
- the pixel test `rect.collidepoint(pos)` and the mouse position, as a flag or the `(row, col)` of the tile under the mouse;
- the button chosen in the question prompt.

`random.shuffle` is modelled by its own algorithm: for `i` from `n-1` down to `1`, swap `x[i]` with some `x[j]`, `0 <= j <= i`. The sequence of `j`s is the input `picks`.

The code has no rules engine, and the model has none either:

- `execute` passes the turn after every move, and `ask` is never called from it.
- No check exists for how far a piece may move, for wedges or for a win.
- `Tile.clicked` returns only the bool `was_clicked`, although its docstring and its caller expect a triple; see "## Findings". The game board is modelled with the documented triple.

## Model

| member | source | states |
|---|---|---|
| `Tiles.TypeName` | TrivialPursuit/Tiles.py:254-380 | each subclass's `tile_type` is one of the six type strings |
| `Tiles.TypeNameInjective` | TrivialPursuit/Tiles.py:254-380 | two subclasses report the same type string exactly when they are the same subclass |
| `Tiles.UnpackTriple` | TrivialPursuit/GameBoard.py:303-304 | unpacking `(is_clicked, text, headquarter)` succeeds exactly for a triple and yields its three parts; a bare bool cannot be unpacked |
| `Tiles.Tile.constructor` | TrivialPursuit/Tiles.py:54-74 | a new tile has the given kind and headquarters flag and is inactive |
| `Tiles.Tile.Activate` | TrivialPursuit/Tiles.py:219-234 | the tile is active afterwards, and only `active` changes |
| `Tiles.Tile.Deactivate` | TrivialPursuit/Tiles.py:236-251 | the tile is inactive afterwards, and only `active` changes |
| `Tiles.Tile.GetType` | TrivialPursuit/Tiles.py:185-200 | the result is the tile's subclass type string |
| `Tiles.Tile.GetHeadquarter` | TrivialPursuit/Tiles.py:202-217 | the result is the headquarters flag given at construction |
| `Tiles.Tile.Clicked` | TrivialPursuit/Tiles.py:130-149 | the documented triple: clicked exactly when the tile is active and the position hits it (so never on an inactive tile), with the tile's type string and headquarters flag |
| `Tiles.Tile.ClickedAsWritten` | TrivialPursuit/Tiles.py:148-149 | the value the code returns: the bare `was_clicked` flag, true only for an active tile that is hit |
| `Tiles.ClickedAsWrittenBreaksUnpacking` | TrivialPursuit/GameBoard.py:303-304 | the caller's triple unpacking fails on what `clicked` returns as written, and succeeds on the documented triple |
| `PlayerState.InitialAnswered` | TrivialPursuit/Player.py:66-71 | the answered map has exactly the four categories, none answered |
| `PlayerState.Player.constructor` | TrivialPursuit/Player.py:45-74 | a new player has the given number and location and nothing answered |
| `PlayerState.Player.SetLocation` | TrivialPursuit/Player.py:130-145 | the location becomes the given one, the answered map is unchanged, and `get_location` returns the new location |
| `PlayerState.Player.GetLocation` | TrivialPursuit/Player.py:147-162 | the result is the stored location |
| `DiceState.Step` | TrivialPursuit/Dice.py:182-191 | a click returns non-zero exactly when the die shows 0 and is hit; then the new roll and the result are the random value in 1..6; otherwise the roll is unchanged |
| `DiceState.AtMostOneRollPerReset` | TrivialPursuit/Dice.py:166-191 | over any sequence of clicks with no reset, at most one is accepted from 0 and none from a shown value |
| `DiceState.AcceptedExactly` | TrivialPursuit/Dice.py:166-191 | from a re-armed die, exactly one click is accepted iff some click hits; from a shown value, none is |
| `DiceState.Dice.constructor` | TrivialPursuit/Dice.py:45-63 | a new die shows 0 |
| `DiceState.Dice.Clicked` | TrivialPursuit/Dice.py:166-191 | when the die shows 0 and is hit, roll and result are the random value; otherwise the roll is unchanged and the result is 0; the result is non-zero iff the click was accepted |
| `DiceState.Dice.Reset` | TrivialPursuit/Dice.py:193-209 | the die shows 0 again, and the next hit is accepted with whatever value is drawn |
| `RoundRobin.Next` | TrivialPursuit/Questions.py:110-113 | advancing and going back to 0 at the length stays in range and equals `(i + 1) % n` |
| `RoundRobin.Iterate` | TrivialPursuit/GameBoard.py:318 | any number of turn steps stays within the player indices |
| `RoundRobin.IterateWithinCycle` | TrivialPursuit/GameBoard.py:318 | after `k <= n` steps from `i` the index is `i + k`, wrapped once past `n` |
| `RoundRobin.FullCycleReturns` | TrivialPursuit/GameBoard.py:318 | after `n` steps the turn (or the cursor) is back where it started |
| `RoundRobin.FirstCycleDistinct` | TrivialPursuit/Questions.py:110-113 | within one cycle no index is visited twice: every question of a category is asked once before any repeats |
| `RoundRobin.FirstCycleCovers` | TrivialPursuit/GameBoard.py:318 | within one cycle every index is reached: every player gets a turn |
| `QuestionDeck.ToRows` | TrivialPursuit/Questions.py:66-68 | the records unpack exactly when every one (the header included) has six fields; the fields are kept in order |
| `QuestionDeck.MakeQuestion` | TrivialPursuit/Questions.py:78-82 | a loaded question keeps the record's question text and has four answers; the first is the record's correct answer and is the only one flagged correct |
| `QuestionDeck.MakeQuestionWellFormed` | TrivialPursuit/Questions.py:78-82 | a loaded question is well formed: four answers, exactly one correct |
| `QuestionDeck.Body` | TrivialPursuit/Questions.py:65-86 | the header (first) record is skipped and all others are kept |
| `QuestionDeck.GroupIsFilter` | TrivialPursuit/Questions.py:66-86 | the grouping loop creates a category exactly for those that occur, and each list holds that category's questions in file order |
| `QuestionDeck.GroupWellFormed` | TrivialPursuit/Questions.py:72-82 | every category list is non-empty and every question in it is well formed |
| `QuestionDeck.LoadRows` | TrivialPursuit/Questions.py:62-86 | the loading loop yields the categories of the non-header records, each with its questions in file order, non-empty and well formed |
| `QuestionDeck.Swap` | TrivialPursuit/Questions.py:92 | one swap step of `random.shuffle` keeps the length (what it exchanges: SwapExchanges) |
| `QuestionDeck.SwapExchanges` | TrivialPursuit/Questions.py:92 | one swap of the shuffle exchanges the two chosen entries and keeps the rest |
| `QuestionDeck.SwapPermutes` | TrivialPursuit/Questions.py:92 | one swap of the shuffle is a permutation |
| `QuestionDeck.ShuffleFrom` | TrivialPursuit/Questions.py:92 | the remaining swaps of `random.shuffle` from step `k` on keep the length (that they permute: ShufflePermutes) |
| `QuestionDeck.Shuffled` | TrivialPursuit/Questions.py:116 | `random.shuffle` with the given choices keeps the length (that it permutes: ShufflePermutes) |
| `QuestionDeck.ShufflePermutes` | TrivialPursuit/Questions.py:92 | a shuffle is a permutation of its input, for every sequence of random choices |
| `QuestionDeck.ShuffleKeepsWellFormed` | TrivialPursuit/Questions.py:116 | shuffling a question's answers keeps four answers with exactly one correct |
| `QuestionDeck.ShuffleDecks` | TrivialPursuit/Questions.py:88-92 | every category gets cursor 0 and its list becomes the shuffle of the loaded list |
| `QuestionDeck.ShuffledDeckValid` | TrivialPursuit/Questions.py:88-92 | after shuffling every list is still non-empty, well formed and has its cursor in range |
| `QuestionDeck.CorrectNumber` | TrivialPursuit/Questions.py:122-134 | the numbering loop gives 1 if no option is correct, otherwise the number of the last correct option; with exactly one correct option, its number |
| `QuestionDeck.Questions.constructor` | TrivialPursuit/Questions.py:46-92 | the deck has the categories of the non-header records, cursors 0, and each list is the shuffle of that category's questions in file order (so a permutation of them) |
| `QuestionDeck.Questions.Ask` | TrivialPursuit/Questions.py:94-149 | an unknown category changes nothing (KeyError); otherwise the cursor advances with wrap-around, only the asked question's answers are shuffled, and the verdict is true exactly when the choice names the correct option |
| `Board.Layout` | TrivialPursuit/GameBoard.py:48-148 | the class-level `board` table has 9 rows of 9 squares |
| `Board.LayoutHoles` | TrivialPursuit/GameBoard.py:48-148 | a square holds a tile exactly when its row or its column is 0, 4 or 8 |
| `Board.UniqueHub` | TrivialPursuit/GameBoard.py:191-193 | the hub square computed from the table size is (4, 4), and it is the only Hub tile |
| `Board.HeadquartersAtCorners` | TrivialPursuit/GameBoard.py:48-148 | the headquarters are exactly the four corners: People, Events, Holidays and Places |
| `Board.DebugText` | TrivialPursuit/GameBoard.py:309-312 | the debug text is the tile's type string, with " (Headquarter)" appended for a headquarters tile |
| `Board.BuildBoard` | TrivialPursuit/GameBoard.py:48-148 | every square of the table gets a new, inactive, distinct tile of the listed kind and headquarters flag, and holes stay empty |
| `Board.BuildRow` | TrivialPursuit/GameBoard.py:49-147 | one row of the table becomes new, inactive, distinct tiles of the listed kind and headquarters flag, with holes left empty |
| `Board.ExecuteAsWrittenFailsAtFirstCell` | TrivialPursuit/GameBoard.py:298-304 | on a board built from the table, the first cell `execute` scans holds a tile, and the bare flag that `clicked` returns there as written fails the triple unpacking for every mouse position, while the documented triple unpacks |
| `Board.TileAt` | TrivialPursuit/GameBoard.py:298-300 | a square holds a tile exactly when it is on the board, and then it is the board's entry there |
| `Board.GameBoard.constructor` | TrivialPursuit/GameBoard.py:153-203 | the board matches the table with every tile new and inactive; players 1..n are new objects that all stand on the hub with nothing answered; the random start is the current player; the debug text is "Testing" |
| `Board.GameBoard.PlayersDistinct` | TrivialPursuit/GameBoard.py:195-197 | the players created are distinct objects |
| `Board.GameBoard.ActivateAt` | TrivialPursuit/Tiles.py:219-234 | activating a square succeeds exactly for a tile square, and no other tile changes |
| `Board.GameBoard.DeactivateAt` | TrivialPursuit/Tiles.py:236-251 | deactivating a square succeeds exactly for a tile square, and no other tile changes |
| `Board.GameBoard.MoveCurrent` | TrivialPursuit/GameBoard.py:314-318 | the current player moves to the square and the turn passes to the next player; no one else moves |
| `Board.GameBoard.ScanCell` | TrivialPursuit/GameBoard.py:300-318 | one cell of the scan: the current player moves there, the turn passes and the debug text is set exactly when the mouse is on the active tile of that cell; otherwise nothing changes |
| `Board.GameBoard.ScanRow` | TrivialPursuit/GameBoard.py:299-321 | scanning one row moves the current player and passes the turn exactly when the mouse is on an active tile of that row |
| `Board.GameBoard.ScanBoard` | TrivialPursuit/GameBoard.py:298-321 | scanning all rows moves the current player, passes the turn and sets the debug text exactly when the mouse is on an active tile; otherwise nothing changes |
| `Board.GameBoard.Execute` | TrivialPursuit/GameBoard.py:271-321 | with no click nothing changes; a click on an active tile moves the current player there, passes the turn to `(player + 1) % n` and sets the debug text; any other click only clears the debug text; numbers and answered flags never change |

## Left out

- Drawing and fonts are not modelled: `draw` of every class, `initialize`, `get_size`, `get_position`, the image loading, colours and pixel geometry. They only render the state the model keeps.
- Mouse position and the pygame rectangle test are inputs: a flag for one tile or the die, and the `(row, col)` under the mouse for the board. The model assumes at most one tile lies under the mouse.
- `random.randint` and the choices inside `random.shuffle` are inputs (the die value, the start player, `picks`).
- Opening `questions.csv` is an input: the records are given as fields. CSV quoting and decoding are not modelled.
- `QuestionDeck.ToRows` models the unpacking of the raw records, including the ValueError for a record without six fields, but it is a separate statement: `QuestionDeck.Questions.constructor` takes records that are already unpacked, so the model does not say that a malformed file aborts the constructor before any deck exists.
- The question text, the `pymsgbox.confirm` prompt and the `pymsgbox.alert` messages are not modelled. Only the player's choice, as a number, and the verdict are. Building the alert text reads the option at `correct - 1`; that value is not modelled.
- `QuestionDeck.Questions.Ask`: a dismissed prompt is not modelled. `confirm` then returns None and `int(None)` raises after the cursor has already moved.
- The welcome screen and the main event loop live outside the five modelled files and are not part of this model. The welcome screen limits the number of players; the model only requires at least one.
- `Board.GameBoard.constructor`: the source keeps `board` and `players` as class attributes shared by all instances, so a second GameBoard would reuse the tiles and append to the same player list. The model gives its single instance its own fields, built by the constructor.
- Python's integer division `len(board) / 2` for the hub square is modelled as Dafny's `/` on non-negative integers (the same).
- Nothing in the modelled files calls `activate` or `deactivate` on board tiles. `ActivateAt` and `DeactivateAt` model them at a board position, so that `execute` can be stated for any mix of active tiles.

## Findings

| source | as written | input that shows it | evidently intended | confidence | as-written member | corrected member |
|---|---|---|---|---|---|---|
| TrivialPursuit/Tiles.py:148-149 | `clicked` returns only the bool `was_clicked`, but `execute` (TrivialPursuit/GameBoard.py:303-304) unpacks its result into three names | any mouse click on the board: the first tile scanned, (0, 0), already returns a bool, and unpacking it raises TypeError | return `(was_clicked, tile_type, headquarter)`, as the docstring of `clicked` describes | high; not executed | `Tiles.Tile.ClickedAsWritten`, with `Tiles.ClickedAsWrittenBreaksUnpacking` and `Board.ExecuteAsWrittenFailsAtFirstCell` | `Tiles.Tile.Clicked` |
