/**
 The AI opponent's move selection: an exhaustive minimax search over the game
 tree. O maximises and X minimises; a board won by X scores -10, one won by O
 scores +10 and a full board without a line scores 0, whatever the depth.
 `Minimax` is the functional reference over sequences; `Run` is the search as
 the page performs it, placing and undoing marks in the board array itself.
 */
module Search {
  import opened Board

  /** A candidate move: the cell it is played in (absent at a terminal
      board) and the score it leads to. */
  datatype Move = Move(index: Option<Index>, score: int)

  /** The number of empty cells: the measure on which the search terminates. */
  function EmptyCount(b: seq<Cell>): nat
  {
    multiset(b)[Empty]
  }

  /** The empty cells among the first `n`, in ascending order. */
  function EmptySpots(b: seq<Cell>, n: nat): (spots: seq<Index>)
    requires |b| == 9 && n <= 9
    ensures forall j :: 0 <= j < |spots| ==> spots[j] < n && b[spots[j]] == Empty
    ensures forall j, k :: 0 <= j < k < |spots| ==> spots[j] < spots[k]
  {
    if n == 0 then []
    else EmptySpots(b, n - 1) + (if b[n - 1] == Empty then [n - 1] else [])
  }

  /** Every empty cell among the first `n` is listed. */
  lemma {:induction false} EmptySpotsComplete(b: seq<Cell>, n: nat, i: Index)
    requires |b| == 9 && n <= 9 && i < n
    ensures b[i] == Empty ==> i in EmptySpots(b, n)
  {
    if i < n - 1 {
      EmptySpotsComplete(b, n - 1, i);
    }
  }

  /** No empty cell among the first `n` is listed exactly when there is none. */
  lemma {:induction false} EmptySpotsNone(b: seq<Cell>, n: nat)
    requires |b| == 9 && n <= 9
    ensures EmptySpots(b, n) == [] <==> forall i: Index :: i < n ==> b[i] != Empty
  {
    if n > 0 {
      EmptySpotsNone(b, n - 1);
    }
  }

  /** The search finds no empty cell exactly when the board is full. */
  lemma EmptySpotsOfBoard(b: seq<Cell>)
    requires |b| == 9
    ensures EmptySpots(b, 9) == [] <==> Empty !in b
  {
    EmptySpotsNone(b, 9);
    if Empty in b {
      var i: Index :| b[i] == Empty;
    }
  }

  /** `s` is strictly preferred to `t` by `p`: O prefers larger scores,
      X smaller ones. */
  predicate Better(p: Player, s: int, t: int)
  {
    if p == O then s > t else s < t
  }

  /** Something strictly better than a value that is at least as good as
      another is strictly better than that other. */
  lemma BetterChain(p: Player, s: int, t: int, u: int)
    requires !Better(p, s, t) && Better(p, u, t)
    ensures Better(p, u, s)
  {
  }

  /** The score of a finished game, none for a game in progress. */
  function LeafScore(o: Outcome): Option<int>
  {
    match o
    case Win(w, _) => Some(if w == X then -10 else 10)
    case Tie => Some(0)
    case InProgress => None
  }

  /** The value of the game at `b` with `p` to move, and the chosen cell. */
  function Minimax(b: seq<Cell>, p: Player): Move
    requires |b| == 9
    decreases EmptyCount(b), 1, 0
  {
    match LeafScore(Evaluate(b))
    case Some(v) => Move(None, v)
    case None =>
      var spots := EmptySpots(b, 9);
      EvaluateOutcome(b);
      EmptySpotsOfBoard(b);
      var moves := Candidates(b, p, spots);
      moves[Pick(moves, p)]
  }

  /** One candidate per cell of `spots`, in that order: `p` plays there and
      the opponent replies optimally. */
  function Candidates(b: seq<Cell>, p: Player, spots: seq<Index>): (moves: seq<Move>)
    requires |b| == 9
    requires forall j :: 0 <= j < |spots| ==> b[spots[j]] == Empty
    ensures |moves| == |spots|
    decreases EmptyCount(b), 0, |spots|
  {
    if spots == [] then []
    else
      var i := spots[|spots| - 1];
      Candidates(b, p, spots[..|spots| - 1]) + [Move(Some(i), Minimax(b[i := Mark(p)], Other(p)).score)]
  }

  /** The score `p` obtains by playing in cell `i` of `b`. */
  function Reply(b: seq<Cell>, p: Player, i: Index): int
    requires |b| == 9
  {
    Minimax(b[i := Mark(p)], Other(p)).score
  }

  /** The fold over the candidates from position `k` on, `best` being the
      candidate chosen so far; a later candidate replaces it only when it is
      strictly better. */
  function Fold(moves: seq<Move>, p: Player, k: nat, best: nat): (r: nat)
    requires best < k <= |moves|
    requires forall j :: 0 <= j < k ==> !Better(p, moves[j].score, moves[best].score)
    requires forall j :: 0 <= j < best ==> Better(p, moves[best].score, moves[j].score)
    ensures r < |moves|
    ensures forall j :: 0 <= j < |moves| ==> !Better(p, moves[j].score, moves[r].score)
    ensures forall j :: 0 <= j < r ==> Better(p, moves[r].score, moves[j].score)
    decreases |moves| - k
  {
    if k == |moves| then best
    else if Better(p, moves[k].score, moves[best].score) then
      assert forall j :: 0 <= j < k ==> Better(p, moves[k].score, moves[j].score) by {
        forall j | 0 <= j < k {
          BetterChain(p, moves[j].score, moves[best].score, moves[k].score);
        }
      }
      Fold(moves, p, k + 1, k)
    else
      Fold(moves, p, k + 1, best)
  }

  /** The position of the chosen candidate: the first candidate seeds the
      fold, which then keeps the first optimal one. */
  function Pick(moves: seq<Move>, p: Player): (r: nat)
    requires |moves| > 0
    ensures r < |moves|
    ensures forall j :: 0 <= j < |moves| ==> !Better(p, moves[j].score, moves[r].score)
    ensures forall j :: 0 <= j < r ==> Better(p, moves[r].score, moves[j].score)
  {
    Fold(moves, p, 1, 0)
  }

  /** At a board in progress some cell is empty and the search returns the
      picked candidate. */
  lemma MinimaxInProgress(b: seq<Cell>, p: Player)
    requires |b| == 9 && Evaluate(b) == InProgress
    ensures EmptySpots(b, 9) != []
    ensures Minimax(b, p) == Candidates(b, p, EmptySpots(b, 9))[Pick(Candidates(b, p, EmptySpots(b, 9)), p)]
  {
    InProgressHasSpots(b);
  }

  /** A board in progress has an empty cell for the search to try. */
  lemma InProgressHasSpots(b: seq<Cell>)
    requires |b| == 9 && Evaluate(b) == InProgress
    ensures EmptySpots(b, 9) != []
  {
    EvaluateOutcome(b);
    EmptySpotsOfBoard(b);
  }

  /** Candidate `j` is the move into `spots[j]` scored by the reply to it. */
  lemma {:induction false} CandidatesAt(b: seq<Cell>, p: Player, spots: seq<Index>, j: nat)
    requires |b| == 9
    requires forall t :: 0 <= t < |spots| ==> b[spots[t]] == Empty
    requires j < |spots|
    ensures Candidates(b, p, spots)[j] == Move(Some(spots[j]), Reply(b, p, spots[j]))
    decreases |spots|
  {
    var init := spots[..|spots| - 1];
    if j < |spots| - 1 {
      CandidatesAt(b, p, init, j);
      assert init[j] == spots[j];
    }
  }

  /** A terminal board gets a bare score and no cell; the score is -10 when
      only X has a line, +10 when only O has one, and 0 for a full board
      without a line. A board still in progress always gets a cell. */
  lemma MinimaxLeaf(b: seq<Cell>, p: Player)
    requires |b| == 9
    ensures Minimax(b, p).index.None? <==> Evaluate(b) != InProgress
    ensures HasLine(b, X) && !HasLine(b, O) ==> Minimax(b, p) == Move(None, -10)
    ensures HasLine(b, O) && !HasLine(b, X) ==> Minimax(b, p) == Move(None, 10)
    ensures NoLine(b) && Empty !in b ==> Minimax(b, p) == Move(None, 0)
  {
    if HasLine(b, X) && !HasLine(b, O) {
      WinnerOfOneSidedBoard(b, X);
    }
    if HasLine(b, O) && !HasLine(b, X) {
      WinnerOfOneSidedBoard(b, O);
    }
    if Evaluate(b) == InProgress {
      MinimaxInProgress(b, p);
      var spots := EmptySpots(b, 9);
      var moves := Candidates(b, p, spots);
      CandidatesAt(b, p, spots, Pick(moves, p));
    }
  }

  /** Every score the search returns is one of the three leaf values. */
  lemma {:induction false} MinimaxScoreRange(b: seq<Cell>, p: Player)
    requires |b| == 9
    ensures Minimax(b, p).score in {-10, 0, 10}
    decreases EmptyCount(b)
  {
    if Evaluate(b) == InProgress {
      MinimaxInProgress(b, p);
      var spots := EmptySpots(b, 9);
      var moves := Candidates(b, p, spots);
      var k := Pick(moves, p);
      CandidatesAt(b, p, spots, k);
      MinimaxScoreRange(b[spots[k] := Mark(p)], Other(p));
    }
  }

  /** An empty cell's reply is never better for `p` than the picked
      candidate's, and strictly worse when the cell comes before it. */
  lemma PickedAgainst(b: seq<Cell>, p: Player, i: Index)
    requires |b| == 9 && Evaluate(b) == InProgress && b[i] == Empty
    ensures EmptySpots(b, 9) != []
    ensures var spots := EmptySpots(b, 9);
            var moves := Candidates(b, p, spots);
            var k := Pick(moves, p);
            && !Better(p, Reply(b, p, i), moves[k].score)
            && (i < spots[k] ==> Better(p, moves[k].score, Reply(b, p, i)))
  {
    InProgressHasSpots(b);
    EmptySpotsComplete(b, 9, i);
    var spots := EmptySpots(b, 9);
    var moves := Candidates(b, p, spots);
    var k := Pick(moves, p);
    var t :| 0 <= t < |spots| && spots[t] == i;
    CandidatesAt(b, p, spots, t);
    assert moves[t].score == Reply(b, p, i);
    assert !Better(p, moves[t].score, moves[k].score);
    if i < spots[k] {
      assert t < k;
      assert Better(p, moves[k].score, moves[t].score);
    }
  }

  /** On a board in progress the search picks an empty cell whose reply is
      optimal for `p` among all empty cells (the maximum for O, the minimum
      for X), and every empty cell before it is strictly worse: the lowest
      optimal cell wins. */
  lemma MinimaxChoice(b: seq<Cell>, p: Player)
    requires |b| == 9 && Evaluate(b) == InProgress
    ensures Minimax(b, p).index.Some?
    ensures b[Minimax(b, p).index.value] == Empty
    ensures Minimax(b, p).score == Reply(b, p, Minimax(b, p).index.value)
    ensures forall i: Index :: b[i] == Empty ==> !Better(p, Reply(b, p, i), Minimax(b, p).score)
    ensures forall i: Index :: i < Minimax(b, p).index.value && b[i] == Empty ==>
              Better(p, Minimax(b, p).score, Reply(b, p, i))
  {
    MinimaxInProgress(b, p);
    var spots := EmptySpots(b, 9);
    var moves := Candidates(b, p, spots);
    var k := Pick(moves, p);
    CandidatesAt(b, p, spots, k);
    forall i: Index | b[i] == Empty
      ensures !Better(p, Reply(b, p, i), moves[k].score)
      ensures i < spots[k] ==> Better(p, moves[k].score, Reply(b, p, i))
    {
      PickedAgainst(b, p, i);
    }
  }

  /** Extending the cells tried by one extends the candidates by one. */
  lemma CandidatesSnoc(b: seq<Cell>, p: Player, spots: seq<Index>, j: nat)
    requires |b| == 9
    requires forall t :: 0 <= t < |spots| ==> b[spots[t]] == Empty
    requires j < |spots|
    ensures Candidates(b, p, spots[..j + 1]) ==
            Candidates(b, p, spots[..j]) + [Move(Some(spots[j]), Reply(b, p, spots[j]))]
  {
    assert spots[..j + 1][..j] == spots[..j];
  }

  /** The search as the page runs it: collect the empty cells, return a
      leaf score at a won or full board, otherwise try each empty cell in
      ascending order by placing `p` there, searching with the opponent to
      move and clearing the cell again, then fold the candidates. The board
      is left as it was found. */
  method Run(a: array<Cell>, p: Player) returns (r: Move)
    requires a.Length == 9
    modifies a
    ensures a[..] == old(a[..])
    ensures r == Minimax(old(a[..]), p)
    decreases EmptyCount(a[..]), 2
  {
    var spots := EmptySpots(a[..], 9);
    var leaf := Leaf(a[..], spots);
    if leaf.Some? {
      return Move(None, leaf.value);
    }
    ghost var b := a[..];
    MinimaxInProgress(b, p);
    var moves := ScoreCells(a, p, spots);
    r := moves[Pick(moves, p)];
  }

  /** The checks at the top of the search: the first won line in table order
      scores the mark on it, and a board with no empty cell left scores 0. */
  method Leaf(b: seq<Cell>, spots: seq<Index>) returns (leaf: Option<int>)
    requires |b| == 9 && spots == EmptySpots(b, 9)
    ensures leaf == LeafScore(Evaluate(b))
    ensures leaf.None? ==> |spots| > 0
  {
    var won := FindWinningLine(b);
    if won.Some? {
      var l := WinningConditions[won.value];
      LeafAtWin(b, won.value);
      return Some(if b[l.a] == Mark(X) then -10 else 10);
    }
    LeafWithoutLine(b);
    if |spots| == 0 {
      return Some(0);
    }
    return None;
  }

  /** A won board scores the mark on its first won line. */
  lemma LeafAtWin(b: seq<Cell>, k: nat)
    requires |b| == 9 && FirstWonLine(b, 0) == Some(k)
    ensures LeafScore(Evaluate(b)) == Some(if b[WinningConditions[k].a] == Mark(X) then -10 else 10)
  {
  }

  /** Without a won line, the board is a tie exactly when no cell is empty. */
  lemma LeafWithoutLine(b: seq<Cell>)
    requires |b| == 9 && FirstWonLine(b, 0) == None
    ensures LeafScore(Evaluate(b)) == if EmptySpots(b, 9) == [] then Some(0) else None
  {
    EmptySpotsOfBoard(b);
  }

  /** The search loop: score every cell of `spots` in order, collecting one
      candidate per cell; the board is restored after each cell. */
  method ScoreCells(a: array<Cell>, p: Player, spots: seq<Index>) returns (moves: seq<Move>)
    requires a.Length == 9
    requires forall t :: 0 <= t < |spots| ==> a[spots[t]] == Empty
    modifies a
    ensures a[..] == old(a[..])
    ensures moves == Candidates(old(a[..]), p, spots)
    decreases EmptyCount(a[..]), 1
  {
    ghost var b := a[..];
    moves := [];
    var j := 0;
    while j < |spots|
      invariant 0 <= j <= |spots|
      invariant a[..] == b
      invariant moves == Candidates(b, p, spots[..j])
    {
      var score := TryCell(a, p, spots[j]);
      CandidatesSnoc(b, p, spots, j);
      moves := moves + [Move(Some(spots[j]), score)];
      j := j + 1;
    }
    assert spots[..j] == spots;
  }

  /** One step of the search loop: place `p` in the empty cell `i`, search
      with the opponent to move, and clear the cell again. */
  method TryCell(a: array<Cell>, p: Player, i: Index) returns (score: int)
    requires a.Length == 9 && a[i] == Empty
    modifies a
    ensures a[..] == old(a[..])
    ensures score == Reply(old(a[..]), p, i)
    decreases EmptyCount(a[..]), 0
  {
    ghost var b := a[..];
    a[i] := Mark(p);
    assert a[..] == b[i := Mark(p)];
    var result := Run(a, Other(p));
    score := result.score;
    a[i] := Empty;
    assert a[..] == b;
  }
}
