# Tic-tac-toe with a minimax opponent

This project models the game core of a browser tic-tac-toe page (`script.js`). The page keeps a
nine-cell board in row-major order, the player to move (X moves first), a flag saying whether the
game still accepts moves, and win and tie counters that survive a restart. A click on an empty
cell of an active game places the mark of the player to move. The page then checks the eight
winning lines in a fixed order (rows, columns, diagonals) and stops at the first line whose three
cells hold the same mark. A won line credits the player who moved and ends the game. Otherwise a
board with no empty cell counts a tie and ends the game. Otherwise the other player gets the move.
In single-player mode the O player is an exhaustive minimax search. The search places and clears
marks in the live board, scores a win by X as -10, a win by O as +10 and a full board as 0, and
keeps the first strictly best candidate in ascending cell order.

The project has three modules:

- `Board` (`board.dfy`) holds the cells, the table of the eight lines, the loop that finds the
  first won line, and the evaluation of a board as won, tied or in progress.
- `Search` (`search.dfy`) holds `Minimax`, a pure recursive reference over sequences, and `Run`,
  the search as the page performs it. `Run` works on an `array` that it mutates and restores, and
  it is proved equal to `Minimax` and to leave the array as it found it. The lemmas about
  `Minimax` state the leaf scores, the range of scores, and the optimality and tie-breaking of the
  chosen cell.
- `Game` (`game.dfy`) describes each event (click, move, evaluation, AI turn, restart) as a
  function on a `GameState` value, with an invariant every event keeps. A `Session` class performs
  the same events in place on its fields and its board array. Each method is proved to produce
  exactly the state the corresponding function describes.

Three choices follow the code closely:

- A move that is refused (an occupied cell, a finished game, an index off the board) is silently
  ignored and leaves the state unchanged; there is no error value, because the page has none.
- The search may be called on a terminal board. It then returns a bare score and no cell, and the
  AI turn does nothing.
- The `±Infinity` seed of the fold is replaced by seeding it with the first candidate. Every score
  is finite, so the first candidate always displaces the seed and the same cell is picked.
  `Search.Pick` is written that way.

## Model

| member | source | states |
|---|---|---|
| Board.Other | script.js:135 | the player who moves next is never the player who just moved |
| Board.LineWon | script.js:92 | a line is won when its three cells are non-empty and hold the same mark (the same test is repeated in the search at script.js:146); `Board.FirstWonLine` and `Board.EvaluateOutcome` state what follows from it |
| Board.FirstWonLine | script.js:90-97 | the reported line is won, no earlier line in table order is won, and none is reported exactly when no line is won |
| Board.FindWinningLine | script.js:90-97 | the loop over the table with its early exit returns exactly the first won line in table order |
| Board.Evaluate | script.js:90-131 | the outcome a board has after a move: the first won line in table order with its mark, then a tie when no cell is empty, otherwise in progress; characterised in both directions by `Board.EvaluateOutcome` |
| Board.EvaluateOutcome | script.js:86-132 | a board is won exactly when some line is won, and the reported line is the first won one and holds the winner's mark in all three cells; a tie exactly when no line is won and no cell is empty; in progress exactly when no line is won and a cell is empty |
| Board.WinnerOfOneSidedBoard | script.js:145-149 | a board on which only player `p` has a line is won by `p` |
| Board.NewLineCarriesMover | script.js:92-101 | a mark placed on an unwon board completes only lines of that mark, so the other player never has a line afterwards |
| Search.EmptySpots | script.js:144 | the listed cells are empty, in range and strictly ascending |
| Search.EmptySpotsComplete | script.js:144 | every empty cell is listed |
| Search.EmptySpotsNone | script.js:144 | no cell is listed exactly when none of the cells scanned is empty |
| Search.EmptySpotsOfBoard | script.js:144-150 | the list of available spots is empty exactly when the board has no empty cell |
| Search.LeafScore | script.js:145-150 | the score of a finished game: -10 for a win by X, +10 for a win by O, 0 for a tie, none in progress; `Search.MinimaxLeaf` and `Search.Leaf` state how the search reaches it |
| Search.Better | script.js:164 | the strict comparison of the fold: O prefers a larger score and X a smaller one; `Search.Pick` states the choice it leads to |
| Search.Minimax | script.js:143-170 | the reference search: a leaf score at a finished board, otherwise the first optimal candidate; `Search.MinimaxLeaf`, `Search.MinimaxScoreRange` and `Search.MinimaxChoice` state its properties and `Search.Run` is proved equal to it |
| Search.Reply | script.js:155-158 | the score of playing cell `i`: the search from there with the opponent to move; `Search.CandidatesAt` and `Search.MinimaxChoice` use it to state the choice |
| Search.Candidates | script.js:152-161 | there is one candidate per available spot |
| Search.CandidatesAt | script.js:152-161 | candidate `j` is the move into the `j`-th available spot, scored by the search from there with the opponent to move |
| Search.Fold | script.js:163-168 | the fold returns a candidate no other candidate strictly beats for the player, and that strictly beats every candidate before it |
| Search.Pick | script.js:163-169 | the picked candidate is optimal for the player (the maximum for O, the minimum for X) and the first optimal one |
| Search.InProgressHasSpots | script.js:144-152 | a board in progress has an available spot to try |
| Search.MinimaxLeaf | script.js:144-150 | a terminal board gets no cell and a board in progress gets one; -10 when only X has a line, +10 when only O has one, 0 for a full board without a line |
| Search.MinimaxScoreRange | script.js:143-170 | every score is -10, 0 or 10 |
| Search.PickedAgainst | script.js:152-169 | no empty cell scores strictly better than the chosen one, and every empty cell before it scores strictly worse |
| Search.MinimaxChoice | script.js:152-169 | on a board in progress the chosen cell is empty, its score is the score of playing it, it is optimal among all empty cells for the player, and it is the lowest-indexed optimal cell |
| Search.Run | script.js:143-170 | the in-place search on the array returns exactly the reference result and leaves the array as it was |
| Search.Leaf | script.js:144-150 | the checks at the top of the search give the leaf score of the board, and find an available spot whenever they give none |
| Search.LeafWithoutLine | script.js:150 | without a won line, the board scores 0 exactly when no spot is available and otherwise has no leaf score |
| Search.ScoreCells | script.js:152-161 | the loop over the available spots collects exactly the reference candidates and restores the array |
| Search.TryCell | script.js:154-159 | placing a mark, searching and clearing the cell yields the score of playing the cell and leaves the array unchanged |
| Game.RestartState | script.js:179-182 | after a restart every cell is empty, X is to move, the game is active, the scores are kept, and the invariant holds |
| Game.EmptyBoardInProgress | script.js:19-21 | the empty board has no mark and is in progress |
| Game.ClickGuard | script.js:61-68 | a click changes nothing exactly when it is on an occupied cell, off the board or in a finished game; an accepted click sets only that cell, to the mark of the player to move |
| Game.ClickTwice | script.js:65 | clicking a cell a second time has no further effect |
| Game.PlaceCounts | script.js:71 | a move adds exactly one mark of the mover |
| Game.PlayOutcome | script.js:70-136 | a legal move sets exactly one cell. A win ends the game, the mover is the winner and only the mover's counter goes up. A full board ends the game and only the tie counter goes up. In both of these the player to move is not switched; otherwise the opponent moves next and no counter changes. The total of the counters goes up by one exactly when the game ends |
| Game.PlayPreservesInv | script.js:65-136 | every legal move keeps the invariant: active exactly while in progress, the mark counts in step with the player to move, and a won board won by the player to move |
| Game.ClickPreservesInv | script.js:61-68 | every click keeps the invariant |
| Game.AiTurnSpec | script.js:172-177 | in a finished game the AI's turn does nothing; in an active game it plays an empty cell chosen by the search for O; the invariant is kept |
| Game.Inv | script.js:19-23 | the invariant of the session state: the game is active exactly while the board is in progress, X has as many marks as O or one more in step with the player to move, and a won board is won by the player to move; kept by `Game.RestartState`, `Game.ClickPreservesInv`, `Game.PlayPreservesInv` and `Game.AiTurnSpec` |
| Game.Click | script.js:65-67 | a click is played only on an empty cell of an active game; `Game.ClickGuard` and `Game.ClickTwice` state its effect |
| Game.Place | script.js:71 | the mover's mark goes into the cell; `Game.PlaceCounts` and `Game.PlayOutcome` state that exactly that cell changes |
| Game.Settle | script.js:99-131 | the evaluation after a move: a win credits the mover and ends the game, a full board counts a tie and ends it, otherwise the player changes; `Game.PlayOutcome` states its outcomes |
| Game.Play | script.js:70-83 | a move followed by its evaluation; `Game.PlayOutcome` and `Game.PlayPreservesInv` state its effect |
| Game.AiTurn | script.js:172-177 | the AI's turn: the search for O runs and its cell, if any, is played; `Game.AiTurnSpec` states its effect |
| Game.Restart | script.js:179-182 | a new game on the empty board with X to move and the scores kept; `Game.RestartState` states its effect |
| Game.Session.constructor | script.js:19-23 | the session starts with the empty board, X to move, an active game and zero counters |
| Game.Session.HandleCellClick | script.js:61-68 | the session's new state is the click event applied to the old one |
| Game.Session.MakeMove | script.js:70-84 | the session's new state is the move followed by its evaluation |
| Game.Session.CheckResult | script.js:86-132 | the session's new state is the evaluation of the old one: the first won line credits the player to move and ends the game, then a full board counts a tie, otherwise the player changes |
| Game.Session.ChangePlayer | script.js:134-136 | the other player gets the move and nothing else changes |
| Game.Session.AiMove | script.js:172-177 | the search runs on the session's own board, which it restores, and the session's new state is the AI turn applied to the old one |
| Game.Session.RestartGame | script.js:179-182 | the session gets a fresh empty board, X to move and an active game, and keeps the scores |

## Left out

- The page itself and every DOM update is not modelled: cell text and classes, messages, the scoreboard display, the winning-line highlight and the theme toggle (script.js:1-17, script.js:37-59, script.js:232-277). These are presentation only.
- Sounds, `console.warn` and `setTimeout` are not modelled. The 200 ms click animation (script.js:81) and the 700 ms delay before the AI's move (script.js:139, script.js:191, script.js:228) are timers, and the model has no clock. Each AI turn is therefore taken as happening at once, and a human click during the delay is not modelled.
- The game-mode switch is left out. That covers `gameMode`, the call of the AI from `changePlayer` in single-player mode (script.js:138-140), and the mode radio buttons. `Game.Session.AiMove` is the operation that call performs, and a caller decides when to make it.
- `saveScores`, `loadScores` and `localStorage` (script.js:43-54) are left out, because they are browser storage. The counters start at zero (script.js:23), and loading saved scores is not modelled.
- `clearScoreboard` (script.js:195-202) and `startGame` (script.js:204-230) are left out. They depend on a confirmation dialog and on name inputs from the page.
- The names of the players are not modelled, because they only appear in messages.
- The AI scheduling in `restartGame` (script.js:190-192) is not modelled. It runs only when O is to move, but `restartGame` has just given X the move, so it never runs.
- The `±Infinity` sentinel of the fold (script.js:167) is replaced by seeding the fold with the first candidate. Every score is finite, so the same candidate is picked.
- No lemma fixes the concrete results of the search on particular boards, such as the reply to an opening move. Those results need the whole game tree evaluated, which the verifier does not do. The general properties are proved instead: optimality, the lowest-index tie-break, the leaf scores and the range of scores.
- The index parsed from the cell attribute (script.js:63) is taken as an integer argument. An index off the board is refused, as the source's comparison with `""` refuses it.
