# Four browser mini-games, modelled and verified

This project models the game logic of four small browser games in Dafny and proves properties about it:

- **Match-3** (`p/script.js`): an 8x8 board of six tile types.
  - The board is generated without any run of three.
  - A swap of two neighbouring tiles is kept only if it makes a match.
  - Matched tiles are cleared, the survivors fall, fresh tiles refill the columns, and the cascade repeats until the board is stable.
  - Each cleared tile adds to a countdown timer, capped at its start value. A debounced stalemate check reloads a board on which no swap can make a match.
- **Reversi** (`r/script.js`): a human White player against a Black NPC that picks a random valid move.
  - Flips are found by an eight-direction scan.
  - Stones are counted after each move.
  - A side without a move passes. The game ends when neither side can move.
- **Memory** (`memory/script.js`): sixteen cards, eight fruit twice each, shuffled by Fisher-Yates.
  - The player and a CPU take turns turning up two cards. A pair scores and lets the same side go on; a miss passes the turn.
  - The CPU picks blindly among the cards still in play.
- **Keisan** (`keisan/script.js`): a thirty-second arithmetic quiz.
  - Each question `a op b` shows 3, 6 or 10 numbers, depending on how many questions were solved. Exactly one of the numbers is the answer.
  - The other numbers shown are distractors: distinct, at least 1, and each either within five of the answer or at most 99. The first loop draws near the answer; its fallback (1 to 9) and the padding loop (1 to 99) do not, so a distractor need not be near the answer.
  - A click is judged once per question, and a correct one advances both counters.

## How the model is built

- **State.** Each game's module-level variables are the fields of a class (`Match3.Match3Game`, `Reversi.ReversiGame`, `Memory.MemoryGame`, `Keisan.QuizGame`). The handlers are methods on that class.
- **Specifications.** Each method is proved against pure specification functions on values: the board modules `Match3Board` and `ReversiBoard`, and the `Table` and `Quiz` values of Memory and Keisan. The properties of those functions are proved as lemmas, including the invariants the handlers keep.
- **Boards and decks.**
  - Boards are sequences of rows. The source copies them with `map(row => [...row])`, which is value semantics.
  - Memory's `cards` is an `array<int>` shuffled in place.
- **Randomness.** `Math.random()` is a value of type `Random.Unit`, a real in [0, 1), supplied by the caller. `Math.floor(Math.random() * n)` is `Random.RandomInt(u, n)`.
  - Match-3 and Keisan read an infinite stream `random: nat -> Unit` through a cursor `drawn`.
  - Reversi and Memory take their draws as parameters.
- **Timers.** Every `await` and `setTimeout` becomes a sequential step. A callback that stays scheduled is a counter on the class: `pendingNpcTurns`, `pendingChecks`, `pendingCpuTurns`, `pendingFeedback`. Running the callback is a method whose precondition needs a pending call.
- **Fuel.** Loops that end only by chance take a bound, `fuel` or a finite list of draws, and report when it ran out:
  - the board generator's `do/while`;
  - match-3's cascade;
  - Keisan's padding loop;
  - Memory's CPU choice.
- **Cascade.** `Match3Board.Cascade` is the chain reaction as a function: rounds of `Step` until a detection finds nothing or the fuel is spent. `Step` takes a `delay` argument that does not change its value; it only stops the verifier from unfolding the grids of every round.
- **Units.** Match-3 time is counted in half seconds, so the 0.5 s bonus per tile is exact. Keisan's elapsed wall-clock time is a parameter of the handlers that read it.
- **Memory's `resetBoard`.** `checkForMatch` can run with fewer than two cards face up, for instance after a restart while its timer was pending. It then calls `resetBoard`, which the script never defines. The model stops that handler with nothing changed.

## Model

| member | source | states |
|---|---|---|
| Random.RandomInt | keisan/script.js:149 | `Math.floor(u * n)` for a `u` in [0, 1) is an index below `n` |
| Random.SwapAt | memory/script.js:24 | exchanging two elements swaps exactly those two positions and keeps the multiset |
| Random.ShuffledIsPermutation | memory/script.js:21-26 | the Fisher-Yates loop, for any draws, keeps the length and the multiset of elements |
| Random.ShuffleFromStep | memory/script.js:22-25 | one turn of the loop swaps index `i` with the partner the first draw picks, then continues from `i - 1` |
| Random.PermutationKeepsDistinct | keisan/script.js:242-247 | reordering a list without repetitions leaves it without repetitions |
| Random.DistinctCardinality | keisan/script.js:214-232 | a list without repetitions is as long as its set, so `Array.from(set)` has `set.size` elements |
| Match3Board.RandomTile | p/script.js:82 | a drawn tile type lies in 0..TILE_TYPES-1 |
| Match3Board.Matched | p/script.js:273-298 | the matched cells lie on the board and are non-null |
| Match3Board.WindowsMatched | p/script.js:276-296 | every cell of every horizontal or vertical window of three equal tiles is matched |
| Match3Board.NoWindowsIffNoMatches | p/script.js:273-298 | a board has no window of three equal non-null cells exactly when the detector finds nothing |
| Match3Board.Swap | p/script.js:216 | the swap exchanges the two cells and changes no other, so a full board stays full |
| Match3Board.SwapTwice | p/script.js:400-404 | swapping the same two cells twice restores the board, which the stalemate search relies on |
| Match3Board.SwapSymmetric | p/script.js:216 | swapping `a` with `b` is swapping `b` with `a` |
| Match3Board.HasMoveCoversAdjacentSwaps | p/script.js:394-417 | any adjacent swap that makes a match is a right or a lower swap of one of its two cells, so scanning those two finds all moves |
| Match3Board.Compact | p/script.js:332-341 | the survivors of a column contain no null, and survivors plus nulls account for the whole column |
| Match3Board.CompactAppend | p/script.js:332-341 | compaction splits over concatenation, for the survivors and for the null count |
| Match3Board.SettleSpec | p/script.js:329-348 | after the gravity pass, a column keeps its height, and its top `k` cells are the fresh draws, where `k` is its number of nulls; each survivor falls by the number of nulls below it, so survivors keep their order at the bottom; no null is left |
| Match3Board.Cleared | p/script.js:300-327 | clearing sets exactly the listed cells to null and leaves every other cell unchanged; a full board becomes tiles or nulls |
| Match3Board.Dropped | p/script.js:329-348 | the board after the gravity pass is column by column the settled column |
| Match3Board.DroppedFull | p/script.js:329-348 | after the gravity pass on a board of tiles and nulls, every cell holds a tile |
| Match3Board.ClearMatches | p/script.js:263 | clearing every matched cell of a full board leaves tiles and nulls |
| Match3Board.ClearedMatches | p/script.js:256-263 | clearing a list that holds exactly the matched cells is clearing every matched cell, whatever the list's order or repetitions |
| Match3Board.Step | p/script.js:256-264 | one round of the chain reaction turns a full board into a full board, counts the matched cells as cleared, and only moves the stream forward |
| Match3Board.StepClears | p/script.js:256-264 | a round run on the detector's list (clear, then drop) gives the board and the stream position of Step |
| Match3Board.Cascade | p/script.js:255-271 | the chain reaction keeps the board full and only moves the stream forward |
| Match3Board.AfterStep | p/script.js:265 | after a round the chain either stops there or continues, so the board stays full and the stream position and the cleared count never go back |
| Match3Board.CascadeOnStable | p/script.js:266-269 | on a board without a match the chain changes nothing, clears nothing and is settled |
| Match3Board.CascadeCounts | p/script.js:255-271 | the chain clears at least the cells of its first detection, and clears some cell iff that detection found a match |
| Match3Board.CascadeSettles | p/script.js:255-271 | a chain that reports itself settled ends on a board without a match |
| Match3Board.CascadeCut | p/script.js:255-265 | with a match and no rounds left, the chain is its first round, unsettled |
| Match3Board.CascadeRound | p/script.js:255-265 | with a match, the chain is its first round followed by the chain from that round's board and stream position, the cleared counts added |
| Match3.AddToSet | p/script.js:280 | `Set.add` in insertion order: the new list holds the old elements and `p`, and no repetition |
| Match3.AddWindow | p/script.js:279-283 | adding the three cells of a window keeps the list free of repetitions and adds exactly those cells |
| Match3.ScanComplete | p/script.js:419-442 | a cell is covered by the row-by-row scan or the column-by-column scan exactly when it is in `Matched` |
| Match3.CheckMatchesOnBoard | p/script.js:419-442 | the scan lists exactly the matched cells of the given board, each once |
| Match3.CompleteBoardOk | p/script.js:75-91 | a board whose every cell passed the generator's rejection test is full and has no window of three |
| Match3.CreateInitialBoardData | p/script.js:75-91 | a generated board has every cell in 0..5 and no run of three, so the detector finds nothing; running out of draws is reported |
| Match3.ClearTiles | p/script.js:300-327 | the board part of `clearTiles` computes `Cleared` |
| Match3.FallColumn | p/script.js:331-341 | the bottom-up gravity scan of one column counts its nulls, and leaves them on top with the survivors below in order |
| Match3.RefillColumn | p/script.js:343-347 | the refill gives the top `count` rows of the column the next draws, top first, and changes nothing else |
| Match3.DropColumn | p/script.js:330-348 | one column of `dropTiles` is the settled column, other columns are untouched, and it consumes one draw per null |
| Match3.DropTiles | p/script.js:329-348 | the board part of `dropTiles` computes `Dropped` and consumes one draw per null on the board |
| Match3.ClearAndDrop | p/script.js:263-264 | clearing then dropping turns a full board into a full board |
| Match3.ResolveRound | p/script.js:263-264 | clearing the detector's list and dropping the tiles gives the board and the stream position of one `Step` |
| Match3.TimeBonus | p/script.js:261 | the bonus is one half-second unit per cleared tile |
| Match3.BonusesAccumulate | p/script.js:122-128 | two capped bonuses add up to their sum capped once, so a cascade's bonus is the capped total |
| Match3.Match3Game.constructor | p/script.js:19-38 | page load starts a valid game with the full time and the game not over |
| Match3.Match3Game.StartGame | p/script.js:41-60 | a start resets the flags and the time, then either yields a full stable board with the lock released and the stalemate check armed, or reports that generation ran out of draws with the lock held |
| Match3.Match3Game.InitializeBoard | p/script.js:63-72 | a fresh board is generated and `checkMatchesWrapper` runs on it, finding nothing; when ready, the board is full with no match, and the time is unchanged |
| Match3.Match3Game.AddTime | p/script.js:122-128 | `timeLeft` becomes `min(INITIAL_TIME, timeLeft + amount)`, never decreases and never exceeds `INITIAL_TIME` |
| Match3.Match3Game.UpdateTimer | p/script.js:94-106 | one tick does nothing once the game is over; otherwise it takes one second off, clips at zero, and ends the game exactly when the time runs out |
| Match3.Match3Game.EndGame | p/script.js:131-135 | the game is over afterwards; the lock is released by the first call only |
| Match3.Match3Game.CheckMatches | p/script.js:273-298 | the detector on the current board lists each matched cell exactly once: no repetition, the same cells as `Matched`, as many of them; it is non-empty exactly when the board has a match |
| Match3.Match3Game.CheckMatchesWrapper | p/script.js:255-271 | the new board, stream position, cleared count and settled flag are those of `Cascade` from the old board. The wrapper reports a match iff its first detection found one, and then iff it cleared some tiles; with no match nothing changes; a settled cascade ends on a board with no match; the time gained is the capped number of cleared tiles |
| Match3.Match3Game.DetectAndResolve | p/script.js:256-264 | one detection counts the matched cells; with none nothing changes; otherwise board and stream become those of one `Step`, and the capped bonus for the counted cells is added |
| Match3.Match3Game.HandleTileClick | p/script.js:185-233 | clicks are ignored while processing or over. Otherwise: a first click selects; a second click on the same cell only deselects; a non-adjacent one deselects and changes no board. None of these branches moves the draw cursor. An adjacent swap is `SwapAndResolve`, with the lock held during it and released after |
| Match3.Match3Game.SwapAndResolve | p/script.js:211-229 | without a match on the swapped board, board, stream and time are as before the swap. With one, board and stream are those the chain reaction `Cascade` from the swapped board leaves, and the capped bonus for all its cleared cells is added, so the time grows unless it is full |
| Match3.Match3Game.ScheduleStalemateCheck | p/script.js:380-392 | scheduling arms the single pending check, superseding an earlier one |
| Match3.Match3Game.StalemateCheckFires | p/script.js:384-391 | when nothing is pending, or input is locked, or the game is over, or a swap makes a match, the fired check leaves the board and the draw cursor unchanged and disarms itself. Otherwise the board is reloaded: a failed generation keeps the old board, leaves input locked and the check disarmed; a successful one gives a full matchless unlocked board with the check rearmed. The time is never changed |
| Match3.Match3Game.ReloadBoard | p/script.js:445-496 | a reload yields a full stable board with the lock released and the check rearmed, or keeps the old board, locked, when generation ran out of draws; the time is unchanged |
| Match3.Match3Game.HasPossibleMoves | p/script.js:394-417 | the search answers true exactly when some cell's swap with its right or lower neighbour makes a match; it works on a copy, so the board is not changed |
| ReversiBoard.SetCell | r/script.js:23-26 | setting a cell changes only that cell |
| ReversiBoard.DirectionsAreDirections | r/script.js:121-124 | the scan uses eight distinct unit directions |
| ReversiBoard.WalkIsRun | r/script.js:128-135 | the `while` walk collects a line of consecutive opponent stones from the neighbour, and stops at the first cell that is off the board or not the opponent's |
| ReversiBoard.OccupiedFlipsNothing | r/script.js:112-115 | an occupied cell turns over nothing |
| ReversiBoard.BracketedIsClosedRun | r/script.js:137-140 | a direction contributes only a non-empty run of opponent stones directly followed by the player's own stone |
| ReversiBoard.FlipsAreOpponent | r/script.js:121-141 | every stone a move turns over is on the board and is the opponent's |
| ReversiBoard.FlipsDistinct | r/script.js:126-141 | `checkFlip` never lists a stone twice |
| ReversiBoard.CountSetCell | r/script.js:61-75 | setting one cell changes the count of a colour only by that cell |
| ReversiBoard.InitialBoard | r/script.js:19-26 | the opening board is a legal board |
| ReversiBoard.InitialBoardShape | r/script.js:20-26 | the opening board has White on (3,3) and (4,4), Black on (3,4) and (4,3), and every other cell empty |
| ReversiBoard.InitialCounts | r/script.js:19-32 | the opening board holds two stones of each colour |
| ReversiBoard.PaintCells | r/script.js:183-205 | painting sets the listed cells to the colour and keeps every other cell |
| ReversiBoard.PaintCounts | r/script.js:183-205 | painting `n` distinct opponent stones moves exactly `n` from the opponent's count to the player's |
| ReversiBoard.MoveCells | r/script.js:159-205 | after a move, the placed cell and every flipped stone have the player's colour, and nothing else changes |
| ReversiBoard.MoveCounts | r/script.js:159-205 | a move raises the mover's count by 1 + the number flipped, lowers the opponent's by the number flipped, and keeps the board legal |
| ReversiBoard.MoveIsPlaceThenPaint | r/script.js:167-205 | the move is the stone placed first, then the flipped stones turned over one by one |
| ReversiBoard.RowMajorUnique | r/script.js:146-156 | a row-major list is determined by its elements, so the list of valid moves is unique |
| Reversi.CheckFlip | r/script.js:112-143 | the method computes the stones to flip, direction by direction in the source's order |
| Reversi.ScanDirection | r/script.js:126-135 | one direction's loop collects the walk's stones and stops where the walk ends |
| Reversi.Decide | r/script.js:263-269 | White wins iff it has more stones, Black iff it has more, and equal counts are a draw |
| Reversi.AfterCheckSchedulesOnce | r/script.js:224-257 | the corrected status check schedules at most one NPC turn, and only when Black is left to move |
| Reversi.PassSchedulesTwice | r/script.js:237-251 | after a White pass with Black able to move, the check as written leaves two NPC turns scheduled, where the corrected check leaves one |
| Reversi.ReversiGame.constructor | r/script.js:12-35 | page load: the opening board, White to move, two stones each, the game running |
| Reversi.ReversiGame.InitializeGame | r/script.js:19-35 | a reset gives the opening board, White to move, counts two and two, the game running and no message |
| Reversi.ReversiGame.UpdateCounts | r/script.js:61-75 | the counts become the numbers of white and of black stones on the board |
| Reversi.ReversiGame.GetValidMoves | r/script.js:146-156 | the list holds exactly the cells where `checkFlip` finds stones, in row-major order, and is non-empty iff the player has a move |
| Reversi.ReversiGame.PlaceStoneAndFlip | r/script.js:159-209 | if nothing would flip, the move fails and the board is unchanged. Success means the cell and the flipped stones take the player's colour, and the counts move by 1 + flipped and - flipped |
| Reversi.ReversiGame.TurnOver | r/script.js:183-205 | the animation loop paints each flipped stone in the player's colour |
| Reversi.ReversiGame.EndGame | r/script.js:260-275 | the game is over and the message gives the verdict of `Decide` with the counts |
| Reversi.ReversiGame.SwitchTurn | r/script.js:212-221 | the move passes to the other side, then the status is checked (with the corrected status check, see ## Findings) |
| Reversi.ReversiGame.CheckGameStatus | r/script.js:224-257 | corrected: a side with a move keeps the turn and Black's turn starts the NPC; a side without one passes; when neither can move the game ends |
| Reversi.ReversiGame.CheckGameStatusAsWritten | r/script.js:224-257 | the status check as the source writes it, with the second NPC turn after a pass |
| Reversi.ReversiGame.HandleCellClick | r/script.js:278-304 | a click is ignored when the game is over or Black is to move. A valid White move is played and the turn passes; an invalid one leaves the board and says it cannot be placed (with the corrected status check, see ## Findings) |
| Reversi.ReversiGame.NpcPlay | r/script.js:318-330 | Black plays the move that `floor(u * n)` picks among its `n` valid moves, then the turn passes (with the corrected status check, see ## Findings) |
| Reversi.ReversiGame.NpcTurn | r/script.js:307-335 | an NPC turn does nothing in an ended game. Otherwise Black plays the drawn move of its row-major move list, or the status is checked again if it has none (with the corrected status check, see ## Findings) |
| Memory.RangeCount | memory/script.js:11 | `Range(n)`, the numbering the eight fruit of `cardValues` get, has length `n` and holds each of `0..n-1` exactly once and nothing else |
| Memory.DeckHasPairs | memory/script.js:11-12 | the deck holds each of the eight fruit exactly twice and nothing else |
| Memory.ArrangementHasPairs | memory/script.js:11-12 | every arrangement of the deck holds each fruit exactly twice |
| Memory.ShuffleKeepsDeck | memory/script.js:21-26 | shuffling an arrangement of the deck gives an arrangement of the deck |
| Memory.NewDeck | memory/script.js:12 | the cards are the fruit values followed by the same values again |
| Memory.Shuffle | memory/script.js:21-26 | the in-place loop leaves the array equal to `Shuffled` of its old contents, which is a permutation of them |
| Memory.SwapCells | memory/script.js:24 | the destructuring swap exchanges two array cells |
| Memory.Decide | memory/script.js:187-195 | the player wins iff their score is higher, the CPU iff its score is higher, and equal scores are a draw |
| Memory.Without | memory/script.js:117-119 | the filter keeps exactly the elements other than the two indices |
| Memory.WithoutTwo | memory/script.js:117-119 | filtering two distinct members out of a list without repetitions removes exactly two |
| Memory.SecondPick | memory/script.js:173-176 | the `do/while` loop returns a card still in play other than the first |
| Memory.CpuPickIsPair | memory/script.js:169-179 | the CPU picks two different cards, both still in play |
| Memory.SecondPickFails | memory/script.js:173-176 | the loop runs out of draws exactly when every draw picks the first card again |
| Memory.SelectCpuCards | memory/script.js:169-179 | the method returns the CPU's pick |
| Memory.InitialConsistent | memory/script.js:28-41 | a freshly initialised table satisfies the invariant: nothing face up, no pair found, scores zero, all cards in play |
| Memory.ClickedKeepsConsistent | memory/script.js:65-82 | a click keeps the invariant. It turns the card up exactly when the guards pass, and locks the board exactly when it turns up the second card; otherwise it changes nothing |
| Memory.MatchedKeepsConsistent | memory/script.js:101-129 | a match keeps the invariant and removes exactly the two face-up cards from play; one score and the pair count go up by one |
| Memory.SwitchedTwice | memory/script.js:142-151 | two turn switches bring the turn back |
| Memory.UnflippedKeepsConsistent | memory/script.js:131-151 | a miss turns the cards face down, releases the lock, keeps the invariant and passes the turn unless all pairs are found |
| Memory.CpuFlipKeepsConsistent | memory/script.js:153-167 | turning up two distinct cards still in play keeps the invariant |
| Memory.CardsRemain | memory/script.js:153-179 | while pairs remain, at least two cards are in play, so the CPU can pick |
| Memory.EndIsFinal | memory/script.js:181-195 | once all pairs are found, no card is in play or face up, the result reflects the score comparison, and clicks change nothing |
| Memory.MemoryGame.constructor | memory/script.js:11-19 | the declarations: the deck in order and the first values of the variables |
| Memory.MemoryGame.InitializeGame | memory/script.js:28-63 | the cards are shuffled in place into an arrangement of the deck, and the table is reset |
| Memory.MemoryGame.ResetTable | memory/script.js:31-41 | every variable gets its initial value |
| Memory.MemoryGame.HandleCardClick | memory/script.js:65-72 | the click computes `Clicked`; the second card schedules one match check |
| Memory.MemoryGame.FlipCard | memory/script.js:74-82 | the card goes face up; the second one locks the board and schedules the check |
| Memory.MemoryGame.CheckForMatch | memory/script.js:84-99 | the check compares the two face-up fruit; on a match it handles the match, on a miss it unflips; with fewer than two cards it stops |
| Memory.MemoryGame.HandleMatch | memory/script.js:101-129 | the match computes `Matched`, and the CPU goes again when it scored |
| Memory.MemoryGame.ScorePair | memory/script.js:104-110 | only the side whose turn it is scores |
| Memory.MemoryGame.RemovePair | memory/script.js:112-122 | the pair leaves play, the pair count rises, and the face-up list and the lock are cleared |
| Memory.MemoryGame.CheckGameEnd | memory/script.js:181-185 | the result is shown once all pairs are found |
| Memory.MemoryGame.UnflipCards | memory/script.js:131-140 | the cards go face down, the lock is released and the turn passes |
| Memory.MemoryGame.SwitchTurn | memory/script.js:142-151 | the turn toggles unless all pairs are found; a turn passed to the CPU schedules it |
| Memory.MemoryGame.CpuTurn | memory/script.js:153-167 | the CPU does nothing once all pairs are found; otherwise it locks the board and turns up the two cards `selectCpuCards` picks |
| Keisan.QuestionIsRight | keisan/script.js:148-177 | the operands are the two drawn numbers in 1..9, and the operator is the drawn one. The answer is what the shown expression is worth; a subtraction shows the larger operand first, so no answer is negative |
| Keisan.Tier | keisan/script.js:191-197 | a question never shows more than `MAX_FLOATING_NUMBERS_ON_SCREEN` numbers |
| Keisan.TierSteps | keisan/script.js:191-197 | 3 numbers while fewer than 3 questions are solved, 6 while 3..5 are, 10 afterwards, in both directions |
| Keisan.TierIsMonotone | keisan/script.js:191-197 | the number of numbers shown never decreases as questions are solved |
| Keisan.Candidate | keisan/script.js:222-223 | one distractor round takes one draw, or two when the first gives a number below 1 |
| Keisan.AddedKeeps | keisan/script.js:225-227 | adding a plausible number to a valid queue keeps it valid and grows it by one unless present |
| Keisan.CollectKeeps | keisan/script.js:219-229 | the first loop keeps the answer in the queue, adds no number twice, adds only numbers at least 1, and never exceeds the target size |
| Keisan.PadKeeps | keisan/script.js:234-239 | the padding loop keeps those properties and never exceeds the target size |
| Keisan.PermutationKeepsCandidates | keisan/script.js:242-247 | a reordering keeps those properties |
| Keisan.PreparedQueue | keisan/script.js:212-248 | the queue contains the answer and no number twice, and every other number is at least 1. It has exactly the target size iff the padding loop finished, and the shuffle only reorders the collected numbers |
| Keisan.PreparedWithoutPadding | keisan/script.js:233-239 | when the first loop collects enough numbers, the padding loop is not entered and the queue is complete |
| Keisan.CollectUnique | keisan/script.js:214-229 | the method's loop computes the first loop's result and the next unused draw |
| Keisan.InitialConsistent | keisan/script.js:38-50 | the declared initial values satisfy the invariant |
| Keisan.NewQuestionAsks | keisan/script.js:180-205 | a new question in a running game poses the drawn question, with its answer expected and the flag cleared; the tier comes from the solved count; counters and end flag are kept |
| Keisan.NewQuestionShowsAnswer | keisan/script.js:180-209 | a completed queue puts exactly the tier's count of numbers on the screen, among them the answer, none twice, no other below 1; otherwise nothing is shown |
| Keisan.NewQuestionKeepsConsistent | keisan/script.js:180-209 | a new question leaves the game consistent |
| Keisan.ClickJudges | keisan/script.js:465-491 | a click is ignored exactly when the game is over, the question is answered or the time is up. Otherwise the number leaves the screen and the question counts as answered. `isCorrect` holds iff the number is the answer, and only a correct click raises both counters by one |
| Keisan.ClickedKeepsConsistent | keisan/script.js:465-491 | a click leaves the game consistent |
| Keisan.OneCorrectNumber | keisan/script.js:465-475 | while a question waits and the time is not up, exactly one number on the screen is judged correct |
| Keisan.EndedIsFinal | keisan/script.js:547-564 | ending is idempotent. An ended game ignores later time checks and new questions, and its feedback callback only clears the flag |
| Keisan.EndedKeepsConsistent | keisan/script.js:547-564 | ending leaves the game consistent |
| Keisan.TimeCheckEnds | keisan/script.js:112-137 | a time check ends the game once the thirty seconds are up and changes nothing before |
| Keisan.FeedbackDoneKeepsConsistent | keisan/script.js:513-532 | the feedback callback leaves the game consistent |
| Keisan.StartedIsFresh | keisan/script.js:61-102 | a started game is consistent, has no score, runs, and shows a first question with three numbers among them the answer |
| Keisan.QuizGame.constructor | keisan/script.js:38-50 | the declarations give the initial values, which are consistent |
| Keisan.QuizGame.InitGame | keisan/script.js:61-102 | a start resets the counters and the screen and poses the first question, leaving the game consistent |
| Keisan.QuizGame.GenerateNewQuestion | keisan/script.js:180-209 | the method computes `NewQuestion`: nothing in an ended game, else the question, the queue and the screen |
| Keisan.QuizGame.AskQuestion | keisan/script.js:187-205 | the flag is cleared, the tier is set, the drawn question is posed, and the screen and the queue are emptied |
| Keisan.QuizGame.PrepareNumbersToGenerateQueue | keisan/script.js:212-248 | the method builds the queue that `Prepared` describes, from the current draw on |
| Keisan.QuizGame.PadQueue | keisan/script.js:234-239 | the padding loop computes `Pad`, with one draw per round |
| Keisan.QuizGame.ShuffleQueue | keisan/script.js:242-247 | the `splice` swaps compute the Fisher-Yates `Shuffled` of the queue with the next draws |
| Keisan.QuizGame.GenerateInitialFloatingNumbers | keisan/script.js:259-261 | the front of the queue, up to the tier's count, moves onto the screen |
| Keisan.QuizGame.OnNumberClick | keisan/script.js:465-482 | the click computes `Clicked`, keeps the game consistent, and schedules one feedback callback when judged |
| Keisan.QuizGame.HandleAnswer | keisan/script.js:485-491 | a correct answer raises both counters; each answer schedules one feedback callback |
| Keisan.QuizGame.FeedbackTimeout | keisan/script.js:513-532 | the callback clears the flag; then, in a running game, it poses the next question in time, or ends the game |
| Keisan.QuizGame.UpdateTimeBar | keisan/script.js:112-137 | the time check ends the game once the time is up and keeps the game consistent |
| Keisan.QuizGame.EndGame | keisan/script.js:547-564 | the first call sets the end flag and clears the screen; a second call changes nothing |

## Left out

- Presentation is not modelled: DOM elements, CSS classes, animations, the timer bars' widths and colours, sounds and messages. Reversi's messages are kept as a small datatype.
- Timers are reduced to sequential steps and pending-callback counters. Their delays, and whether a callback of an old game fires after a restart, are not modelled.
- Match-3's debounced stalemate check is one boolean. A rescheduled check replaces the pending one.
- Keisan's placement and motion are not modelled: positions, sizes, speeds, rotation, overlap tests, `animateNumbers` and `checkCircleOverlap`. A floating number is its value. The draws that placement and rotation consume are not in the stream, so the stream lists only the modelled draws.
- Keisan's time bonus on a correct answer (`keisan/script.js:493-510`) is not modelled. It moves `gameStartTime`, a wall-clock value; elapsed time is a parameter of the handlers that read it.
- Keisan's `numbersGeneratedForCurrentQuestion` is not modelled: nothing in `keisan/script.js` outside the animation reads it. Neither is `resetGame`, which only stops timers and changes the screen.
- Keisan.QuizGame.PadQueue: the padding loop only chance ends; with `fuel` rounds used up the model stops with the queue short and reports it, where the script would go on drawing.
- Match3.CreateInitialBoardData: the rejection loop only chance ends; after `fuel` draws the model reports `None`, where the script would go on drawing.
- Match3.Match3Game.CheckMatchesWrapper: the cascade only chance ends; after `fuel` rounds it reports that it has not settled, as `Match3Board.Cascade` does with the same fuel.
- Memory.SelectCpuCards: the `do/while` loop only chance ends; when the supplied draws run out the model reports `None`, where the script would go on drawing.
- Memory's `checkForMatch` with fewer than two cards face up calls `resetBoard`, which `memory/script.js` does not define. The model stops the handler and changes nothing.
- Match-3's `reloadBoard` calls `Math.random()` once per tile for the drop-off delay (`p/script.js:452`). Those draws are not in the stream, which lists only the draws that pick tile types.
- Reversi's flip animation awaits one `animationend` per flipped stone while `currentPlayer` is still White. A second White click that arrives in that window runs `handleCellClick` on a half-painted board. The model plays a move in one step, so such interleavings are not modelled.
- The other games of the repository (`run`, `train`, `bowling`, `suica` and the Unity scripts) are not part of this model.

## Findings

| source | as written | input that shows it | evidently intended | confidence | as-written member | corrected member |
|---|---|---|---|---|---|---|
| r/script.js:237-251 | after a pass, the callback's `switchTurn` runs `checkGameStatus`, which already schedules `npcTurn` for Black (line 251). The callback then schedules `npcTurn` again (line 243) | White has no valid move and Black has one: two NPC turns are pending, and the second can play a Black stone on White's turn | one NPC turn per Black turn | not executed | Reversi.PassSchedulesTwice | Reversi.AfterCheckSchedulesOnce |
