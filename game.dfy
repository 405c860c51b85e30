/**
 A game session: the board, the player to move, whether the game still
 accepts moves, and the score counters that survive a restart. The pure
 functions over `GameState` describe each event (a click, a move, the
 evaluation after a move, the AI's turn, a restart); the `Session` class
 performs them in place on its fields and its board array.
 */
module Game {
  import opened Board
  import Search

  /** The win and tie counters. */
  datatype Scores = Scores(x: nat, o: nat, ties: nat) {
    /** One more win for `p`. */
    function Credit(p: Player): Scores
    {
      if p == X then this.(x := x + 1) else this.(o := o + 1)
    }

    /** One more tie. */
    function AddTie(): Scores
    {
      this.(ties := ties + 1)
    }

    /** The number of finished games counted. */
    function Total(): nat
    {
      x + o + ties
    }
  }

  /** The state of a session between two events. */
  datatype GameState = GameState(board: seq<Cell>, current: Player, active: bool, scores: Scores)

  const EmptyBoard: seq<Cell> := [Empty, Empty, Empty, Empty, Empty, Empty, Empty, Empty, Empty]

  /** A restart empties the board and gives X the move; the scores stay. */
  function Restart(s: GameState): GameState
  {
    GameState(EmptyBoard, X, true, s.scores)
  }

  /** The player to move puts a mark in cell `i`. */
  function Place(s: GameState, i: Index): GameState
    requires |s.board| == 9
  {
    s.(board := s.board[i := Mark(s.current)])
  }

  /** The evaluation after a move: a won line credits the player who moved
      and ends the game, a full board counts a tie and ends the game,
      otherwise the other player gets the move. */
  function Settle(s: GameState): GameState
    requires |s.board| == 9
  {
    match Evaluate(s.board)
    case Win(_, _) => s.(active := false, scores := s.scores.Credit(s.current))
    case Tie => s.(active := false, scores := s.scores.AddTie())
    case InProgress => s.(current := Other(s.current))
  }

  /** A move in cell `i` followed by its evaluation. */
  function Play(s: GameState, i: Index): GameState
    requires |s.board| == 9
  {
    Settle(Place(s, i))
  }

  /** A click is accepted only on an empty cell of the board while the game
      is active; any other click (an occupied cell, an index off the board,
      a finished game) leaves the state as it is. */
  function Click(s: GameState, index: int): GameState
    requires |s.board| == 9
  {
    if 0 <= index < 9 && s.board[index] == Empty && s.active then Play(s, index) else s
  }

  /** The AI's turn: the search runs for O on the current board, and its
      cell is played when it returns one. */
  function AiTurn(s: GameState): GameState
    requires |s.board| == 9
  {
    var best := Search.Minimax(s.board, O);
    if best.index.Some? then Play(s, best.index.value) else s
  }

  /** X's marks minus O's marks. */
  function MarkDifference(b: seq<Cell>): int
  {
    var xs: int := multiset(b)[Mark(X)];
    xs - multiset(b)[Mark(O)]
  }

  /** What holds of every reachable state: the game is active exactly while
      the board is in progress; X has as many marks as O when X is to move
      in an active game or O has just ended it, and one more otherwise; a
      won board is won by the player whose move ended the game. */
  ghost predicate Inv(s: GameState)
  {
    && |s.board| == 9
    && (s.active <==> Evaluate(s.board) == InProgress)
    && MarkDifference(s.board) == (if s.active == (s.current == X) then 0 else 1)
    && (Evaluate(s.board).Win? ==> Evaluate(s.board).winner == s.current)
  }

  /** A restart gives an empty board, X to move and an active game, keeps
      the scores, and reaches a state where the invariant holds. */
  lemma RestartState(s: GameState)
    ensures |Restart(s).board| == 9 && forall i: Index :: Restart(s).board[i] == Empty
    ensures Restart(s).current == X && Restart(s).active && Restart(s).scores == s.scores
    ensures Inv(Restart(s))
  {
    EmptyBoardInProgress();
    assert Restart(s).board == EmptyBoard;
  }

  /** The empty board has no mark, is still in progress and holds as many
      X marks as O marks. */
  lemma EmptyBoardInProgress()
    ensures |EmptyBoard| == 9 && forall i: Index :: EmptyBoard[i] == Empty
    ensures Evaluate(EmptyBoard) == InProgress
    ensures MarkDifference(EmptyBoard) == 0
  {
    assert FirstWonLine(EmptyBoard, 0) == None;
    assert EmptyBoard[0] == Empty;
  }

  /** A click changes nothing exactly when it is refused: off the board, on
      an occupied cell, or in a finished game. An accepted click sets that
      cell, and only that cell, to the mark of the player to move. */
  lemma ClickGuard(s: GameState, index: int)
    requires |s.board| == 9
    ensures Click(s, index) == s <==> !(0 <= index < 9 && s.board[index] == Empty && s.active)
    ensures 0 <= index < 9 && s.board[index] == Empty && s.active ==>
              Click(s, index).board == s.board[index := Mark(s.current)]
  {
    if 0 <= index < 9 && s.board[index] == Empty && s.active {
      assert Click(s, index).board[index] != s.board[index];
    }
  }

  /** Clicking the same cell twice has the effect of clicking it once: the
      second click always finds the cell occupied or the game unchanged. */
  lemma ClickTwice(s: GameState, index: int)
    requires |s.board| == 9
    ensures Click(Click(s, index), index) == Click(s, index)
  {
    if 0 <= index < 9 && s.board[index] == Empty && s.active {
      assert Click(s, index).board[index] == Mark(s.current);
    }
  }

  /** Placing a mark adds one mark of the player who moved. */
  lemma PlaceCounts(b: seq<Cell>, i: Index, p: Player)
    requires |b| == 9 && b[i] == Empty
    ensures MarkDifference(b[i := Mark(p)]) == MarkDifference(b) + (if p == X then 1 else -1)
  {
    assert multiset(b[i := Mark(p)]) == multiset(b) - multiset{Empty} + multiset{Mark(p)};
  }

  /** A legal move in an active game changes exactly one cell. If it wins,
      the game ends, the mover is the board's winner and only the mover's
      counter goes up; if it fills the board, the game ends and only the tie
      counter goes up; in both cases the player to move is not switched.
      Otherwise the other player moves next and no counter changes. */
  lemma PlayOutcome(s: GameState, i: Index)
    requires Inv(s) && s.active && s.board[i] == Empty
    ensures Play(s, i).board == s.board[i := Mark(s.current)]
    ensures Evaluate(Play(s, i).board).Win? ==>
              && !Play(s, i).active && Play(s, i).current == s.current
              && Evaluate(Play(s, i).board).winner == s.current
              && Play(s, i).scores == s.scores.Credit(s.current)
    ensures Evaluate(Play(s, i).board) == Tie ==>
              && !Play(s, i).active && Play(s, i).current == s.current
              && Play(s, i).scores == s.scores.AddTie()
    ensures Evaluate(Play(s, i).board) == InProgress ==>
              && Play(s, i).active && Play(s, i).current == Other(s.current)
              && Play(s, i).scores == s.scores
    ensures Play(s, i).scores.Total() == s.scores.Total() + (if Play(s, i).active then 0 else 1)
  {
    var b' := s.board[i := Mark(s.current)];
    EvaluateOutcome(s.board);
    NewLineCarriesMover(s.board, i, s.current);
    EvaluateOutcome(b');
  }

  /** Every legal move keeps the invariant. */
  lemma PlayPreservesInv(s: GameState, i: Index)
    requires Inv(s) && s.active && s.board[i] == Empty
    ensures Inv(Play(s, i))
  {
    PlayOutcome(s, i);
    PlaceCounts(s.board, i, s.current);
  }

  /** Every click keeps the invariant. */
  lemma ClickPreservesInv(s: GameState, index: int)
    requires Inv(s)
    ensures Inv(Click(s, index))
  {
    if 0 <= index < 9 && s.board[index] == Empty && s.active {
      PlayPreservesInv(s, index);
    }
  }

  /** In a finished game the AI's turn does nothing; in an active game it
      plays the cell the search picks for O, which is empty, and the
      invariant is kept either way. */
  lemma AiTurnSpec(s: GameState)
    requires Inv(s)
    ensures !s.active ==> AiTurn(s) == s
    ensures s.active ==>
              && Search.Minimax(s.board, O).index.Some?
              && s.board[Search.Minimax(s.board, O).index.value] == Empty
              && AiTurn(s) == Play(s, Search.Minimax(s.board, O).index.value)
    ensures Inv(AiTurn(s))
  {
    Search.MinimaxLeaf(s.board, O);
    if s.active {
      Search.MinimaxChoice(s.board, O);
      PlayPreservesInv(s, Search.Minimax(s.board, O).index.value);
    }
  }

  /** The session of the page: the board array, the player to move, whether
      the game accepts moves, and the scores. */
  class Session {
    var board: array<Cell>
    var currentPlayer: Player
    var isGameActive: bool
    var scores: Scores

    /** The session's state as a value. */
    ghost function State(): GameState
      reads this, board
    {
      GameState(board[..], currentPlayer, isGameActive, scores)
    }

    ghost predicate Valid()
      reads this, board
    {
      board.Length == 9 && Inv(State())
    }

    /** The session as the page starts it: an empty board, X to move, an
        active game and no scores. */
    constructor ()
      ensures Valid() && fresh(board)
      ensures State() == GameState(EmptyBoard, X, true, Scores(0, 0, 0))
    {
      board := new Cell[9](_ => Empty);
      currentPlayer := X;
      isGameActive := true;
      scores := Scores(0, 0, 0);
      new;
      assert board[..] == EmptyBoard;
      RestartState(State());
    }

    /** A click on cell `index`: refused on an occupied cell, off the board
        or in a finished game, otherwise played. */
    method HandleCellClick(index: int)
      requires Valid()
      modifies this, board
      ensures Valid() && board == old(board)
      ensures State() == Click(old(State()), index)
    {
      if !(0 <= index < board.Length) || board[index] != Empty || !isGameActive {
        return;
      }
      ClickPreservesInv(State(), index);
      MakeMove(index);
    }

    /** The player to move puts a mark in cell `index`, then the result is
        evaluated. */
    method MakeMove(index: Index)
      requires board.Length == 9
      modifies this, board
      ensures board == old(board)
      ensures State() == Play(old(State()), index)
    {
      board[index] := Mark(currentPlayer);
      CheckResult();
    }

    /** The evaluation after a move: the loop over the table of lines stops
        at the first won line, which credits the player to move and ends
        the game; otherwise a board without an empty cell counts a tie and
        ends the game; otherwise the move passes to the other player. */
    method CheckResult()
      requires board.Length == 9
      modifies this
      ensures board == old(board)
      ensures State() == Settle(old(State()))
    {
      var won := FindWinningLine(board[..]);
      if won.Some? {
        scores := scores.Credit(currentPlayer);
        isGameActive := false;
        return;
      }
      if Empty !in board[..] {
        scores := scores.AddTie();
        isGameActive := false;
        return;
      }
      ChangePlayer();
    }

    /** The other player gets the move. */
    method ChangePlayer()
      modifies this
      ensures currentPlayer == Other(old(currentPlayer))
      ensures board == old(board) && isGameActive == old(isGameActive) && scores == old(scores)
    {
      currentPlayer := if currentPlayer == X then O else X;
    }

    /** The AI's move: the search for O runs on the session's own board,
        which it restores, and the cell it returns, if any, is played by
        the player to move. */
    method AiMove()
      requires Valid()
      modifies this, board
      ensures Valid() && board == old(board)
      ensures State() == AiTurn(old(State()))
    {
      var best := Search.Run(board, O);
      AiTurnSpec(State());
      if best.index.Some? {
        MakeMove(best.index.value);
      }
    }

    /** A new game: a fresh empty board, X to move, an active game; the
        scores are kept. */
    method RestartGame()
      modifies this
      ensures Valid() && fresh(board)
      ensures State() == Restart(old(State()))
    {
      board := new Cell[9](_ => Empty);
      isGameActive := true;
      currentPlayer := X;
      assert board[..] == EmptyBoard;
      RestartState(State());
    }
  }
}
