# Terminal Snake, modelled in Dafny

A model of the simulation core of the terminal Snake game in its three
versions:

- the packaged game (`src/snake/__init__.py`): a snake of cells moving on a
  board two cells tall per terminal row, a stage that paints cells and
  places food, and the play loop that reads keys, advances the stage and
  ends a round on a win or a loss;
- its autopilot (`src/snake/auto.py`), which chases the food greedily and
  falls back to the heading with the longest free run;
- the two older stand-alone scripts (`snake.py`, `terminal-snake.py`),
  which have a wrapping board (or walls that kill), a once-per-move turn
  gate, a tail extension that guesses the tail's heading, and a column-major
  grid that is redrawn each tick.

Every operation is a pure function from the old state to the new one.
Randomness is a stream `roll: nat -> nat`. Draw `k` of `random.choice(xs)`
picks `xs[roll(k) % |xs|]`, and `randint(0, n - 1)` is `roll(k) % n`. Every
run of the game corresponds to some stream, so a property proved for every
`roll` holds however the draws fall. Clock readings (`time.perf_counter()`)
and terminal sizes are parameters.

Modules:

- `Wrappers`: `Option`.
- `Geometry`: points, headings, unit steps, rays, `range`.
- `FoodPools`: the column-and-row pool search that places food. It is
  shared by the packaged stage and by `snake.py`.
- `SnakeModel`, `StageModel`, `GameModel`: the packaged game.
- `AutoSnake`: the autopilot.
- `Classic`: the rules the two scripts share line for line. It also holds
  grid painting with Python list indexing.
- `LegacySnake`: `snake.py`.
- `TerminalSnake`: `terminal-snake.py`.

Where a line of code is evidently wrong (see Findings), the model keeps both
readings. Functions of the stand-alone scripts take an `Edition`, either
`AsWritten` or `Corrected`. The packaged game's new round exists twice:
`GameModel.NewRoundAsWritten` follows the code, and `GameModel.NewRound`
uses the corrected `StageModel.StageReset`.

Behaviour of the code that a reader of the game's rules might not expect,
and that the model follows:

- `Game.get_event` joins every buffered key before looking it up. Two keys
  pressed within one tick therefore give no event at all, rather than the
  latest one. `GameModel.GetEvent` states this as: any input whose length is
  not 1 gives `None`.
- The packaged stage tests a collision against the body after the move,
  `points[:-1]`. The cell the tail just left is therefore free to enter.
  `snake.py` tests against the body before the move, tail included, so
  there that cell is fatal.
- `terminal-snake.py` tests for a collision before stepping. A step into
  the body is therefore noticed one move late
  (`TerminalSnake.CollisionSeenOneMoveLate`).
- The pool search of `create_food` is not a uniform draw over free cells,
  and it can give up while free cells remain
  (`FoodPools.SearchCanMissFreeCell`). It always succeeds while the body has
  fewer cells than the board has columns and rows (`FoodPools.Place`).
- The packaged game declares a win when the length is at least the number
  of board cells (`>=`).

## Model

| member | source | states |
|---|---|---|
| Geometry.Delta | src/snake/auto.py:5-10 | each heading moves exactly one coordinate by exactly one unit |
| Geometry.StepBack | src/snake/__init__.py:62-69 | stepping back from a step returns to the start exactly when the second heading is the opposite of the first; the reversal rule forbids exactly that heading |
| Geometry.BoardCapacity | src/snake/__init__.py:238 | a body of distinct cells on a `width` x `height` board has at most `width * height` cells, the bound the win test compares against |
| Geometry.RangeMembers | src/snake/__init__.py:127-128 | `list(range(n))` holds exactly the integers 0 to n - 1 |
| FoodPools.Pick | src/snake/__init__.py:130 | `random.choice` returns a member of the pool |
| FoodPools.Remove | src/snake/__init__.py:136-137 | `list.remove` shrinks the pool by one, adds nothing, and a pool of distinct values no longer holds the removed one |
| FoodPools.Search | src/snake/__init__.py:127-137 | a found cell comes from the pools and is off the body; the search gives up only after meeting as many distinct occupied cells as one of the pools had entries |
| FoodPools.Place | src/snake/__init__.py:126-137 | over the whole board, a found cell is a free board cell, and one is always found while the body has fewer cells than both board sides |
| FoodPools.FullBoardGivesUp | src/snake/__init__.py:129-137 | when every pooled cell is occupied, no food is placed |
| FoodPools.SearchCanMissFreeCell | src/snake/__init__.py:129-137 | on a 2 x 2 board with three cells occupied, some draws make the search give up although (0, 1) is free |
| SnakeModel.Reset | src/snake/__init__.py:56-60 | a reset snake is alive, three cells long, heads right, has its tail at (0, 0), has distinct cells, and its head leads in its heading |
| SnakeModel.ResetIsContiguous | src/snake/__init__.py:60 | the reset body is a chain of neighbouring cells |
| SnakeModel.ChangeDirection | src/snake/__init__.py:62-70 | a turn never sets the reverse of the current heading; any other heading is taken; a reversal changes nothing; only the heading can change |
| SnakeModel.TurnNeverReachesNeck | src/snake/__init__.py:62-70 | after any accepted turn, the next step of a snake whose head leads its heading does not land on the segment behind the head |
| SnakeModel.Grow | src/snake/__init__.py:72-74 | growing adds one unit of length and makes the given cell the new tail, ahead of the whole old body; the head, the heading and the alive flag are unchanged |
| SnakeModel.GrowKeepsHeadLeads | src/snake/__init__.py:72-74 | growing a snake of at least two cells keeps its head leading its heading |
| SnakeModel.Move | src/snake/__init__.py:77-88 | a move keeps the length, puts the head one step ahead in the heading, and shifts every other cell up by one |
| SnakeModel.MoveLeadsHead | src/snake/__init__.py:77-88 | after a move, the head is one step from the segment behind it in the heading |
| SnakeModel.GrowAfterMoveKeepsTail | src/snake/__init__.py:140-158 | moving and then growing back the old tail gives the old body plus the new head |
| StageModel.RenderPoint | src/snake/__init__.py:105-117 | a point is drawn at column x + 1 and terminal row y / 2 + 1, with the upper half coloured by the even row and the lower half by the odd row of that pair |
| StageModel.SharedTerminalCell | src/snake/__init__.py:108-117 | two points are drawn at the same terminal position exactly when they share a column and a row pair, and they then draw the same glyph |
| StageModel.RenderShowsOwnPixel | src/snake/__init__.py:105-114 | a point's own colour appears in the glyph, in the fore half on an even row and in the back half on an odd one |
| StageModel.UpdateSize | src/snake/__init__.py:100-103 | the board after resizing holds exactly the points whose column is in the terminal and whose row pair is a terminal line; nothing else changes |
| StageModel.CreateFood | src/snake/__init__.py:126-137 | the food either stays or moves to a free board cell painted FOOD; it always moves while the body is smaller than both board sides |
| StageModel.Update | src/snake/__init__.py:139-162 | a tick keeps the board size and the heading |
| StageModel.MovedBody | src/snake/__init__.py:140-143 | the moved body is the old body without its tail plus the next head |
| StageModel.UpdateOnCrash | src/snake/__init__.py:144-153 | on a crash into the body or off the board, the snake is dead, keeps the moved body and length, the food stays, and the old head is painted FOOD |
| StageModel.UpdateSurvivalShape | src/snake/__init__.py:154-162 | without a crash, a tick paints the new head and then grows back the tail and places food, or clears the old tail cell once the body has left it |
| StageModel.UpdateOnEating | src/snake/__init__.py:157-159 | eating keeps the whole old body, adds the new head, grows the length by one and paints the head SNAKE |
| StageModel.UpdateOnStep | src/snake/__init__.py:160-162 | a plain step drops the tail, adds the head painted SNAKE, keeps the food, and empties the vacated tail cell |
| StageModel.UpdateMovesSnake | src/snake/__init__.py:140-162 | over all branches of `update`: the snake dies exactly on a crash, and the body is the old one, less its tail unless the snake eats, plus the next head |
| StageModel.UpdateFrame | src/snake/__init__.py:139-162 | a tick recolours no cell other than the new head, the old tail, the old head and the food |
| StageModel.EatsMeansFoodAhead | src/snake/__init__.py:157 | in a valid round, the food is on the moved body exactly when the next head is the food cell |
| StageModel.UpdateKeepsValid | src/snake/__init__.py:139-162 | a tick without a crash keeps the round valid (distinct body cells on the board, food on a free board cell) while the grown body stays smaller than both board sides |
| StageModel.UpdateEatsPlacesFood | src/snake/__init__.py:157-159 | after eating in a valid round, the next food is on a free board cell |
| StageModel.ResetAsWritten | src/snake/__init__.py:119-124 | the reset as written gives the reset snake and keeps every pixel except the food's |
| StageModel.ResetCanPutFoodOnSnake | src/snake/__init__.py:123-124 | the food placed before the snake is reset can land on the new snake |
| StageModel.ResetKeepsStalePixels | src/snake/__init__.py:119-124 | a cell of the old body keeps its SNAKE colour after the reset |
| StageModel.StageReset | src/snake/__init__.py:119-124 | the corrected reset gives the reset snake; on a board larger than 3 x 3 the round is valid; every cell but the food is EMPTY |
| StageModel.ResetFitsBoard | src/snake/__init__.py:123-124 | placing food around a reset snake on a board larger than 3 x 3 gives a valid round |
| StageModel.ResetOnBoard | src/snake/__init__.py:56-60 | the reset body lies on any board at least 3 wide and 1 tall |
| StageModel.CreateFoodMakesValid | src/snake/__init__.py:126-137 | placing food around a well-formed body of distinct board cells, smaller than both board sides, gives a valid round |
| GameModel.Lower | src/snake/__init__.py:177 | `str.lower` keeps the length and folds each character |
| GameModel.GetEvent | src/snake/__init__.py:171-180 | an event is returned exactly when the folded input is that event's key; input not of length 1 gives none |
| GameModel.GetEventOfKey | src/snake/__init__.py:171-180 | every event's key reads as that event, and so do the upper-case forms of the letter keys |
| GameModel.HandleEvent | src/snake/__init__.py:182-188 | exit and quit stop the game, pause holds it, a heading is handed to the snake, and no event changes nothing |
| GameModel.PauseOn | src/snake/__init__.py:190-197 | a pause ends at the first pause, exit or quit event, and only there, and lasts while no such event comes |
| GameModel.PauseNeedsAKey | src/snake/__init__.py:190-197 | with no key pressed, a pause never ends |
| GameModel.RoundEnd | src/snake/__init__.py:238-249 | a round is won exactly when the length reaches the number of board cells, and lost exactly when it is not won and the snake is dead |
| GameModel.WinMeansFullBoard | src/snake/__init__.py:238-243 | for a body of distinct board cells, the win test fires exactly when the body has as many cells as the board |
| GameModel.ValidRoundNotWon | src/snake/__init__.py:238-243 | a valid round, with its food on a free board cell, is never reported won |
| GameModel.Advance | src/snake/__init__.py:237-249 | after the event, `update` runs: the snake dies exactly on a crash, the body loses its tail unless the snake eats and gains the next head, the length never drops, the board and the heading are kept, a win is reported exactly at full length, and a round that goes on has a live snake |
| GameModel.AdvanceMoves | src/snake/__init__.py:140-158 | after `update` the head is one cell on in the stage's heading, and the snake is alive exactly when it was and that cell is on the board and off the body the tail leaves |
| GameModel.Continuing | src/snake/__init__.py:182-197 | the stage `update` runs on: none exactly on exit, on quit, or on a pause that the polls do not resume; the body, food and pixels are kept; a resumed pause takes the terminal size; an accepted turn sets the heading and any other event keeps it |
| GameModel.Dispatch | src/snake/__init__.py:233-249 | an iteration once the event is read: exit on exit or quit, also when a pause ends on one; paused exactly when no poll ends the pause; otherwise the turn is taken or the heading kept, and `update` moves the head one cell in that heading, killing the snake exactly when that cell is off the board or on the remaining body |
| GameModel.Tick | src/snake/__init__.py:233-249 | a tick exits on exit or quit, also when a pause ends on one; it stays paused exactly when no poll ends the pause; a resumed pause resizes the board to the terminal; an accepted turn sets the heading, any other event keeps it; `update` then moves the head one cell in that heading and kills the snake exactly when that cell is off the board or on the remaining body; the body never shortens and a win is reported exactly at full length |
| GameModel.TickLength | src/snake/__init__.py:236-237 | a stage update never shortens the body |
| GameModel.NewRound | src/snake/__init__.py:204-206 | the corrected new round has the reset snake and the terminal's size; on a terminal more than 3 columns wide and 1 line tall it is valid and neither won nor lost |
| GameModel.NewRoundAsWritten | src/snake/__init__.py:204-206 | the new round as written has the reset snake and the terminal's size; its food stays or avoids only the old body; every pixel but the food's is kept |
| GameModel.FirstRound | src/snake/__init__.py:32-38 | the first round starts with the reset snake, the terminal's size and an empty pixel map; its food is (0, 0) or a board cell off the starting body, and on a terminal more than 3 x 1 the round is valid and not over |
| GameModel.NewRoundAsWrittenCanFeedOnSnake | src/snake/__init__.py:119-124 | when the first draws pick column 1 and row 0, free of the old body, the round as written starts with the food on the new snake and is not valid |
| AutoSnake.Probe | src/snake/auto.py:27-39 | the probe returns the sentinel only when the food lies ahead behind free cells, and otherwise the count of free non-food cells before the first blocked one |
| AutoSnake.CheckMove | src/snake/auto.py:23-39 | a non-heading scores the sentinel; a heading scores the sentinel if the food is visible along it, and otherwise the length of its free run |
| AutoSnake.ReverseScoresZero | src/snake/auto.py:23-39 | right after a move, the reverse heading scores 0 unless the food is on the neck |
| AutoSnake.GreedyPrefersRows | src/snake/auto.py:44-54 | the greedy choice closes the row gap first, then the column gap, skipping the current heading, else keeps the heading; a new heading brings the head closer to the food |
| AutoSnake.ArgMax | src/snake/auto.py:56 | `max` with a key returns the first index of a highest score |
| AutoSnake.FirstBest | src/snake/auto.py:56 | the fallback heading scores at least as high as every heading, and strictly higher than every heading before it in the table |
| AutoSnake.Decide | src/snake/auto.py:41-57 | a key press is passed through; without one the answer is a heading: the greedy one if it has a free cell or sees the food, else the first best-scoring one |
| AutoSnake.DecideAvoidsReverse | src/snake/auto.py:41-57 | right after a move, with some heading scoring above 0, the autopilot never reverses by itself |
| AutoSnake.AutoPause | src/snake/auto.py:14-21 | the autopilot's pause ends at the first poll whose keys read as pause (resume) or exit or quit, never earlier, stays paused exactly when no poll reads so, and never ends without a key |
| Classic.StartAsWritten | snake.py:115-125 | the starting body as written has the requested length and is correct for right and down starts (the same comprehension is at terminal-snake.py:86-90) |
| Classic.Start | snake.py:115-125 | the corrected starting body starts at the start cell, and each segment is one step further in the heading |
| Classic.StartAsWrittenIgnoresStart | snake.py:116-120 | a left start at (5, 5) of length 3 is laid out at x = 0, -1, -2, not 5, 4, 3 |
| Classic.Spawn | snake.py:103-125 | a new snake is alive and as long as requested; as written its body is the comprehension as written, so the tail is at the start only for right and down starts, and corrected it always is; for a positive period it ignores every turn until its first move (the constructor at terminal-snake.py:76-90 is the same) |
| Classic.ChangeDirection | snake.py:127-139 | a reversal is ignored, and so is a turn once one was taken since the last move; otherwise the heading changes and the turn is stamped (`SetDirection` at terminal-snake.py:92-100 is the same gate) |
| Classic.LockedTurns | snake.py:136-137 | after a turn stamped since the last move, every further turn is ignored |
| Classic.BurstTurnsOnce | snake.py:127-139 | between two moves, a burst of presses takes effect at most once: it ends where it began or where one of its presses alone leads |
| Classic.Loop | snake.py:141-155 | a point counts as looped exactly when it is off the board; an on-board point is unchanged; an x past the right edge becomes 0 and an x left of 0 becomes the last column; only with x on the board does y move, past the bottom to 0 and above 0 to the last row (`Loop` at terminal-snake.py:102-123 is the same rule) |
| Classic.LoopIsTorusStep | snake.py:141-155 | from a board cell, a step followed by `loop` is the step taken modulo the board, and lands on the board |
| Classic.LoopStepBack | snake.py:141-155 | the opposite torus step undoes a torus step |
| Classic.ExtendAsWritten | snake.py:157-169 | the tail extension continues the line away from a neighbouring next segment, and stays put on a repeated cell |
| Classic.GrowAsWritten | snake.py:157-171 | growth as written adds a unit of length, puts the looped extension before the tail, and kills the snake when that crossed a killing wall (`Grow` at terminal-snake.py:130-148 is the same code) |
| Classic.TrailOf | snake.py:162-169 | the torus heading from the tail to the next segment, found exactly when they are one torus step apart |
| Classic.Grow | snake.py:157-171 | the corrected growth adds a unit of length and keeps the rest of the snake; when the old tail is a board cell one torus step from the next segment, the new tail is one torus step from the old, and on a board at least 3 x 3 it continues the line from the next segment through the old tail, so it never lands on the second segment |
| Classic.BehindContinuesLine | snake.py:162-170 | on a board at least 3 x 3, the cell behind the tail has the same torus heading to the tail as the tail to the next segment, and is not that segment |
| Classic.TorusStepsDistinct | snake.py:141-155 | on a board at least 3 x 3, steps in two different headings from a board cell, passed through `loop`, land on different cells |
| Classic.GrowKeepsChain | snake.py:157-171 | the corrected growth keeps a body of torus steps a body of torus steps |
| Classic.GrowAsWrittenFoldsOntoBody | snake.py:162-170 | a snake that just wrapped leftwards grows its new tail onto its second segment |
| Classic.GrowAsWrittenKillsAtWall | snake.py:153-170 | with killing walls, eating with the tail on the left edge kills the snake as written, and not when corrected |
| Classic.PyIndex | snake.py:67 | a list index is accepted exactly in `-n .. n - 1`, and negative ones count from the end |
| Classic.Slot | snake.py:67 | the grid cell named by `field[x][y]` is on the grid, and an on-board point names itself |
| Classic.Filled | snake.py:59-62 | a cleared grid is `width` columns of `height` cells, all showing the same thing (as `Generate` at terminal-snake.py:44-45 builds it) |
| Classic.Paint | snake.py:67 | a write hits exactly the named cell, or raises when the point names none |
| Classic.PaintAll | snake.py:66-67 | painting the body changes exactly the cells its points name, and fails exactly when one point names no cell |
| LegacySnake.CreateFood | snake.py:90-99 | the food stays or moves to a free board cell, and always moves while the body is smaller than both board sides |
| LegacySnake.OpenAsWritten | snake.py:47-52 | the opening food is on the board, but is placed without looking at the snake |
| LegacySnake.Open | snake.py:47-52 | the corrected opening puts the food on a cell free of the starting body |
| LegacySnake.OpenAsWrittenCanFeedOnSnake | snake.py:50-52 | when the first draws pick (0, 0), the opening food lies on a snake whose tail starts there |
| LegacySnake.Stride | snake.py:174-188 | the head advances and wraps, the tail is dropped, and the snake lives exactly when it neither hits its body nor crosses a killing wall |
| LegacySnake.StrideKeepsDistinct | snake.py:184-186 | with the corrected test, a live step keeps the body's cells distinct and on the board |
| LegacySnake.StrideAsWrittenMissesWrapCollision | snake.py:184-186 | with the test as written, a head that wraps onto its body lives on |
| LegacySnake.Move | snake.py:173-200 | nothing happens before a period has passed; then the step, the game-over banner exactly when the step was fatal, growth and new food exactly when the food is on the body (the grown snake is `grow` of the edition applied to the stepped snake, and the corrected growth keeps the stepped snake's alive flag), the win banner exactly at full length, and the move stamped |
| LegacySnake.StrideKeepsChain | snake.py:174-188 | a corrected step keeps the body a chain of torus steps on the board |
| LegacySnake.MoveKeepsValid | snake.py:173-200 | a corrected move keeps the game valid while the grown body stays smaller than both board sides |
| LegacySnake.Render | snake.py:64-72 | a redraw succeeds exactly when the body is non-empty and the food and every body point name a grid cell; then every cell shows food over tail over head over body over blank |
| TerminalSnake.OpenAsWritten | terminal-snake.py:36-45 | the opening as written fails exactly on an empty board; otherwise the food is the first draw, whatever the snake, and the grid is blank but for the food |
| TerminalSnake.Open | terminal-snake.py:36-45 | the corrected opening puts the food on a board cell free of the starting body, the grid blank but for the food, and settles unless every draw hits the body |
| TerminalSnake.OpenAsWrittenCanFeedOnSnake | terminal-snake.py:40-42 | when the first draw is (0, 0), the opening food as written lies on a snake whose tail starts there |
| TerminalSnake.Draw | terminal-snake.py:69 | a drawn food cell is on the board |
| TerminalSnake.CreateFood | terminal-snake.py:67-72 | the food is the first free draw; the search runs on exactly as long as every draw hits the body |
| TerminalSnake.FullBoardSpins | terminal-snake.py:67-72 | on a full board the search never settles |
| TerminalSnake.IsAlive | terminal-snake.py:125-128 | the snake lives exactly when its current head is on no other segment |
| TerminalSnake.Stride | terminal-snake.py:150-168 | the step drops the tail and adds the looped head; the snake lives exactly when its head was clear before the step and no killing wall was crossed |
| TerminalSnake.Move | terminal-snake.py:150-181 | nothing happens before a period has passed; the game ends exactly when the step's verdict is death; the heading is kept and the body is the stepped body, or, after eating, the stepped snake grown by the edition's `grow` (stamped when the search settles); a completed move is stamped; the grid keeps the board's shape; a game over keeps the stepped snake; a step that misses the food is exactly the stamped step with food and grid unchanged; a search that does not settle happens only after eating, and leaves food and grid unchanged |
| TerminalSnake.PlaceFood | terminal-snake.py:71 | the food's cell is painted as food and every other cell is unchanged |
| TerminalSnake.MoveFeeds | terminal-snake.py:176-179 | a step onto the food grows the snake by one, keeps the alive flag the edition's growth gives (always alive when corrected) and, once the search settles, the next food is on a free board cell painted as food |
| TerminalSnake.StepIntoBodySurvives | terminal-snake.py:165-168 | a step into a segment that stays is survived, with the head left on the body |
| TerminalSnake.HeadOnBodyEnds | terminal-snake.py:165-174 | a due move whose head already sits on the body ends the game |
| TerminalSnake.CollisionSeenOneMoveLate | terminal-snake.py:150-174 | a step into the body ends the game only at the next due move |
| TerminalSnake.Clear | terminal-snake.py:48-49 | clearing turns every snake cell blank and keeps every other cell |
| TerminalSnake.Render | terminal-snake.py:52-59 | a redraw succeeds exactly when the body is non-empty and every point names a grid cell; then the head's cell shows the head, other body cells show body, and the rest keep what they showed unless it was snake |

## Left out

- Terminal output is not modelled: escape codes, colours, cursor moves, window titles and the banners' text and placement. Rendering is modelled only as the grid or glyph it produces.
- Key reading (`kbhit`, `getch`) is not modelled. Input arrives as the string of keys buffered in a tick.
- The scripts' own key loops are not modelled: `snake.py`'s `Game.play` with its keybind table, and `terminal-snake.py`'s `Main` with its arrow-key codes. Their moves and turns are modelled.
- `time.sleep` and `time.perf_counter` are not modelled; clock readings are parameters.
- `Game.end` and `Game.play` blocking for a key and restarting a round are not modelled; the end of a round is reported as a value.
- Configuration loading (`config.py`, `classes.py`, the JSON files) and `src/snake/__main__.py` are not part of this model.
- `Snake.speed` is not modelled: `Snake.__init__` and `play` set it, and it only paces `time.sleep`. The rest of the packaged constructors is `GameModel.FirstRound`, whose first round starts from the reset snake, an empty pixel map and food at (0, 0). The constructors of the two scripts are `Classic.Spawn`, `LegacySnake.OpenAsWritten` and `TerminalSnake.OpenAsWritten`.
- The `float` type of `check_move` is not modelled; `sys.maxsize` is the 64-bit value 2^63 - 1.
- Grid cells stand for the configured colour dictionaries, assumed pairwise different. `terminal-snake.py` compares them by value, so two equal dictionaries would be erased together.
- GameModel.Lower: folds ASCII letters only; `str.lower` also folds other alphabets, but every key the game recognises is ASCII.
- Classic.GrowAsWritten: requires at least two segments; the source raises `IndexError` on a one-cell snake.
- LegacySnake.Move: requires at least two segments, for the same reason. It also uses one clock reading for both the due test and the new stamp, where the source reads the clock twice.
- TerminalSnake.CreateFood: the search is unbounded in the source. The model makes at most `fuel` draws, and `None` stands for a search still drawing, which on a full board never ends.
- TerminalSnake.Move: requires a board at least 1 x 1 and a grid of its shape, since `randint(0, -1)` raises. It also requires at least two segments: the source moves a one-cell snake, and raises `IndexError` at terminal-snake.py:133 only once it eats.
- StageModel.Update: its own contract states only what every branch keeps. What each branch does is stated by the lemmas `UpdateOnCrash`, `UpdateOnEating` and `UpdateOnStep`.
- No claim is made about the distribution of food cells; the properties hold for every stream of draws.

## Findings

| source | as written | input that shows it | evidently intended | confidence | as-written member | corrected member |
|---|---|---|---|---|---|---|
| snake.py:184-186 | `move` tests `head not in body` on the head before `loop` wraps it, so a wrap into the body is not seen | 4 x 3 board, walls wrap, body (1,0), (0,0), (0,1), (1,1), (2,1), (3,1) heading right: the head wraps to (0,1), which is on the body, and the snake lives | test the cell the head will occupy after `loop` | high, not executed | LegacySnake.StrideAsWrittenMissesWrapCollision | LegacySnake.StrideKeepsDistinct |
| snake.py:162-170 | `grow` picks the tail extension by comparing raw coordinates, then wraps it; across a wrapped edge the new tail lands on the second segment (the same code is at terminal-snake.py:135-147) | 4 x 3 board, body (0,0), (3,0), (2,0) heading left: the new tail is (3,0), already the second segment | extend behind the tail on the torus, at (1,0) | high, not executed | Classic.GrowAsWrittenFoldsOntoBody | Classic.GrowKeepsChain |
| snake.py:153-170 | `grow` passes the extension through `loop`, which kills the snake on a board whose walls kill | 4 x 3 board, walls kill, body (0,1), (1,1), (2,1) heading right, eating: the extension (-1,1) crosses the wall and the snake dies | eating never kills | medium, not executed | Classic.GrowAsWrittenKillsAtWall | Classic.Grow |
| snake.py:118 | `start_pos.x + i if RIGHT else -i` binds as `(start.x + i) if RIGHT else (-i)`, so left and up starts ignore the start (the same line is at terminal-snake.py:87 and 90) | start (5,5), heading left, length 3: x = 0, -1, -2 | `start.x - i` | high, not executed | Classic.StartAsWrittenIgnoresStart | Classic.Start |
| snake.py:47-52 | `Field.__init__` places the food while `snake_coords` is still empty, so the food can start under the snake | first draws pick column 0 and row 0, snake starting at (0,0) heading right: the food is on the tail | place the food against the starting body | medium, not executed | LegacySnake.OpenAsWrittenCanFeedOnSnake | LegacySnake.Open |
| src/snake/__init__.py:123-124 | `Stage.reset` calls `create_food` before `snake.reset`, so the food avoids the old body but may land on the new one | 10 x 10 board, old body (5,5), (6,5), (7,5), draws picking column 1 and row 0: the food is (1,0), the middle of the new snake | reset the snake first | high, not executed | StageModel.ResetCanPutFoodOnSnake | StageModel.StageReset |
| src/snake/__init__.py:119-124 | `Stage.reset` blanks the screen but keeps the pixel map, so old body cells still read SNAKE when a neighbouring half-block is redrawn | old body cell (5,5) painted SNAKE: after the reset it is off the snake and still SNAKE | start the round with an empty pixel map | medium, not executed | StageModel.ResetKeepsStalePixels | StageModel.StageReset |
| terminal-snake.py:40-42 | `Field.__init__` runs `CreateFood` while `snakeCoords` is still empty, so the first draw is taken even on the snake built next | first draw (0,0), snake starting at (0,0) heading right: the food is on the tail | search against the starting body | medium, not executed | TerminalSnake.OpenAsWrittenCanFeedOnSnake | TerminalSnake.Open |
